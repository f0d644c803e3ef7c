/**
 The status word of `hashtable.c` as a transition system: any number of threads, one atomic
 operation on `table->status` per step, every interleaving.
 */
module HtStatus {
  import opened Numbers

  const CLEAR := 0
  const WRITE := 1
  const GROW := 2
  const IDLE := 3
  const READ := 4

  datatype Kind = Clear | Write | Grow

  function Code(kind: Kind): (code: nat)
    ensures code < IDLE
  {
    match kind
    case Clear => CLEAR
    case Write => WRITE
    case Grow => GROW
  }

  /** Where a thread is, named after the atomic operation it performs next. */
  datatype Pc =
    | Outside                  // in no protected section
    | Acquire(kind: Kind)      // ATOMIC_CAS(status, IDLE, kind)
    | Inside(kind: Kind)       // the exclusive window, ended by ATOMIC_CAS(status, kind, IDLE)
    | Enter                    // ATOMIC_CAS_RETURN(status, IDLE, READ), first loop of ht_get_list
    | Seen(local: nat)         // the loop test with a possible sched_yield()
    | Join(local: nat)         // ATOMIC_CAS(status, local, local + 1), second loop
    | Rejoin                   // ATOMIC_CAS_RETURN(status, IDLE, READ), second loop
    | Lookup(local: nat)       // the reader's window
    | Leave(local: nat)        // ATOMIC_CAS(status, local, local - 1)
    | LeaveLast                // ATOMIC_CAS_RETURN(status, READ, IDLE)

  /** A thread with counters of what it has done to the status word. */
  datatype Thread = Thread(pc: Pc, raised: nat, lowered: nat, acquired: nat, released: nat)

  /** `width` is the number of values of the status word: 2^32, or 256 where the enum is packed. */
  datatype State = State(width: nat, status: nat, threads: seq<Thread>)

  /** What the environment decides: the operation a thread starts, and whether a call of
      sched_yield() succeeds. */
  datatype Choice = StartRead | StartExclusive(kind: Kind) | Yield(ok: bool)

  datatype Move = Move(tid: nat, choice: Choice)

  // ---------- the steps ----------

  /** Compare-and-swap: the word afterwards. */
  function Cas(word: nat, expected: nat, desired: nat): nat
  {
    if word == expected then desired else word
  }

  /** A word one higher, or one lower, modulo its width. */
  function Up(width: nat, word: nat): nat
  {
    if word + 1 < width then word + 1 else 0
  }

  function Down(width: nat, word: nat): nat
  {
    if word > 0 then word - 1 else if width > 0 then width - 1 else 0
  }

  /** One step of the thread at `pc`: the new status word and where the thread is then. The copy a
      reader keeps has the width of the word; a wider one differs only once the word has wrapped. */
  function Advance(width: nat, status: nat, pc: Pc, choice: Choice): (nat, Pc)
  {
    match pc
    case Outside =>
      (match choice
       case StartRead => (status, Enter)
       case StartExclusive(kind) => (status, Acquire(kind))
       case Yield(_) => (status, Outside))
    case Acquire(kind) =>
      // growing gives up at once, the others spin
      (Cas(status, IDLE, Code(kind)),
       if status == IDLE then Inside(kind) else if kind.Grow? then Outside else Acquire(kind))
    case Inside(kind) => (Cas(status, Code(kind), IDLE), Outside)
    case Enter => (Cas(status, IDLE, READ), Seen(status))
    case Seen(local) => (status, if local < IDLE && choice == Yield(true) then Enter else Join(local))
    case Join(local) =>
      if local == IDLE then (status, Lookup(READ))
      else if local >= READ && status == local then (Up(width, local), Lookup(Up(width, local)))
      else (status, Rejoin)
    case Rejoin => (Cas(status, IDLE, READ), Join(status))
    case Lookup(local) => (status, Leave(local))
    case Leave(local) =>
      if status == local then (Down(width, local), Outside) else (status, LeaveLast)
    case LeaveLast => (Cas(status, READ, IDLE), if status > READ then Leave(status) else Outside)
  }

  predicate Reader(pc: Pc)
  {
    pc.Enter? || pc.Seen? || pc.Join? || pc.Rejoin? || pc.Lookup? || pc.Leave? || pc.LeaveLast?
  }

  /** The counters follow the word itself: a reader's step raises it, lowers it or leaves it. */
  function Recorded(t: Thread, before: nat, after: nat, pc: Pc): Thread
  {
    if before == after then Thread(pc, t.raised, t.lowered, t.acquired, t.released)
    else if Reader(t.pc) && after > before then Thread(pc, t.raised + 1, t.lowered, t.acquired, t.released)
    else if Reader(t.pc) then Thread(pc, t.raised, t.lowered + 1, t.acquired, t.released)
    else if t.pc.Acquire? then Thread(pc, t.raised, t.lowered, t.acquired + 1, t.released)
    else Thread(pc, t.raised, t.lowered, t.acquired, t.released + 1)
  }

  function Step(s: State, m: Move): State
  {
    if m.tid >= |s.threads| then s else
      var t := s.threads[m.tid];
      var (status, pc) := Advance(s.width, s.status, t.pc, m.choice);
      State(s.width, status, s.threads[m.tid := Recorded(t, s.status, status, pc)])
  }

  function Run(s: State, moves: seq<Move>): State
  {
    if moves == [] then s else Step(Run(s, moves[..|moves| - 1]), moves[|moves| - 1])
  }

  function Initial(width: nat, n: nat): State
  {
    State(width, IDLE, seq(n, _ => Thread(Outside, 0, 0, 0, 0)))
  }

  // ---------- the claims ----------

  /** The thread has raised the status and not yet lowered it. */
  predicate Active(pc: Pc)
  {
    pc == Seen(IDLE) || pc == Join(IDLE) || pc.Lookup? || pc.Leave? || pc.LeaveLast?
  }

  ghost function Readers(ts: seq<Thread>): set<nat>
  {
    set i: nat | i < |ts| && Active(ts[i].pc)
  }

  ghost function Holders(ts: seq<Thread>): set<nat>
  {
    set i: nat | i < |ts| && ts[i].pc.Inside?
  }

  /** Below IDLE: one exclusive holder, of the kind the status names, and no active reader.
      Otherwise: no holder, and the status counts the active readers. */
  ghost predicate Excludes(s: State)
  {
    && (s.status < IDLE ==>
         && Readers(s.threads) == {}
         && exists i :: Holders(s.threads) == {i} && s.status == Code(s.threads[i].pc.kind))
    && (s.status >= IDLE ==>
         Holders(s.threads) == {} && s.status == IDLE + |Readers(s.threads)|)
  }

  /** What a thread has done to the word balances, except for what it is doing now. */
  ghost predicate Balanced(t: Thread)
  {
    && t.raised == t.lowered + Ones(Active(t.pc))
    && t.acquired == t.released + Ones(t.pc.Inside?)
  }

  ghost predicate BalancedAt(ts: seq<Thread>, i: int)
  {
    0 <= i < |ts| ==> Balanced(ts[i])
  }

  ghost predicate Safe(s: State)
  {
    Excludes(s) && forall i :: BalancedAt(s.threads, i)
  }

  // ---------- one step ----------

  ghost function Upto(n: nat): (r: set<nat>)
    ensures |r| == n && forall i :: i in r <==> 0 <= i < n
  {
    if n == 0 then {} else Upto(n - 1) + {n - 1}
  }

  lemma SubsetSize(a: set<nat>, b: set<nat>)
    requires a <= b
    ensures |a| <= |b|
  {
    assert b == a + (b - a);
  }

  /** How the two sets follow the step of one thread. */
  lemma SetsAfter(ts: seq<Thread>, i: nat, t: Thread)
    requires i < |ts|
    ensures Readers(ts[i := t]) == if Active(t.pc) then Readers(ts) + {i} else Readers(ts) - {i}
    ensures Holders(ts[i := t]) == if t.pc.Inside? then Holders(ts) + {i} else Holders(ts) - {i}
  {
  }

  /** What the step of one thread may assume of the rest. */
  ghost predicate Local(status: nat, pc: Pc, others: nat)
  {
    if status < IDLE then !Active(pc) && (pc.Inside? ==> Code(pc.kind) == status)
    else !pc.Inside? && status == IDLE + others + Ones(Active(pc))
  }

  /** The effect of one step seen from that thread, for every branch of the protocol. */
  lemma AdvanceLocal(width: nat, status: nat, pc: Pc, choice: Choice, others: nat)
    requires Local(status, pc, others) && IDLE + others + 1 < width
    ensures var (status', pc') := Advance(width, status, pc, choice);
      && (status < IDLE && !pc.Inside? ==> status' == status && !Active(pc') && !pc'.Inside?)
      && (status < IDLE && pc.Inside? ==> status' == IDLE && pc' == Outside)
      && (status >= IDLE && status' < IDLE ==>
           status == IDLE && others == 0 && !Active(pc) && pc'.Inside? && status' == Code(pc'.kind))
      && (status >= IDLE && status' >= IDLE ==>
           !pc'.Inside? && status' == IDLE + others + Ones(Active(pc')))
  {
  }

  /** The counters of the thread that moves stay balanced. */
  lemma AdvanceBalanced(t: Thread, width: nat, status: nat, choice: Choice, others: nat)
    requires Balanced(t) && Local(status, t.pc, others) && IDLE + others + 1 < width
    ensures var (status', pc') := Advance(width, status, t.pc, choice); Balanced(Recorded(t, status, status', pc'))
  {
  }

  lemma StepSafe(s: State, m: Move)
    requires Safe(s) && IDLE + |s.threads| < s.width
    ensures Safe(Step(s, m)) && |Step(s, m).threads| == |s.threads| && Step(s, m).width == s.width
  {
    if m.tid < |s.threads| {
      OthersBound(s.threads, m.tid);
      StepLocal(s, m.tid);
      assert BalancedAt(s.threads, m.tid);
      AdvanceBalanced(s.threads[m.tid], s.width, s.status, m.choice, |Readers(s.threads) - {m.tid}|);
      StepExcludes(s, m.tid, m.choice);
      assert m == Move(m.tid, m.choice);
      forall j ensures BalancedAt(Step(s, m).threads, j) {
        assert BalancedAt(s.threads, j);
      }
    }
  }

  lemma OthersBound(ts: seq<Thread>, i: nat)
    requires i < |ts|
    ensures |Readers(ts) - {i}| < |ts|
  {
    SubsetSize(Readers(ts) - {i}, Upto(|ts|) - {i});
  }

  lemma StepLocal(s: State, i: nat)
    requires Excludes(s) && i < |s.threads|
    ensures Local(s.status, s.threads[i].pc, |Readers(s.threads) - {i}|)
  {
    var pc := s.threads[i].pc;
    if s.status < IDLE {
      assert Active(pc) ==> i in Readers(s.threads);
      assert pc.Inside? ==> i in Holders(s.threads);
    } else {
      assert pc.Inside? ==> i in Holders(s.threads);
      if Active(pc) {
        assert i in Readers(s.threads);
      } else {
        assert Readers(s.threads) - {i} == Readers(s.threads);
      }
    }
  }

  lemma StepExcludes(s: State, i: nat, choice: Choice)
    requires Excludes(s) && i < |s.threads| && IDLE + |s.threads| < s.width
    ensures Excludes(Step(s, Move(i, choice)))
  {
    var (status, pc) := Advance(s.width, s.status, s.threads[i].pc, choice);
    var t := Recorded(s.threads[i], s.status, status, pc);
    OthersBound(s.threads, i);
    StepLocal(s, i);
    AdvanceLocal(s.width, s.status, s.threads[i].pc, choice, |Readers(s.threads) - {i}|);
    if s.status < IDLE {
      ExclusiveStep(s, i, status, t);
    } else {
      SharedStep(s, i, status, t);
    }
  }

  lemma ExclusiveStep(s: State, i: nat, status: nat, t: Thread)
    requires Excludes(s) && i < |s.threads| && s.status < IDLE && !Active(t.pc) && !t.pc.Inside?
    requires status == if s.threads[i].pc.Inside? then IDLE else s.status
    ensures Excludes(State(s.width, status, s.threads[i := t]))
  {
    var ts := s.threads[i := t];
    SetsAfter(s.threads, i, t);
    var h :| Holders(s.threads) == {h} && s.status == Code(s.threads[h].pc.kind);
    assert h in Holders(s.threads);
    if h == i {
      assert Holders(ts) == {};
    } else {
      assert i !in Holders(s.threads);
      assert Holders(ts) == {h};
    }
  }

  lemma SharedStep(s: State, i: nat, status: nat, t: Thread)
    requires Excludes(s) && i < |s.threads| && s.status >= IDLE
    requires var others := |Readers(s.threads) - {i}|;
      if status < IDLE then others == 0 && !Active(t.pc) && t.pc.Inside? && status == Code(t.pc.kind)
      else !t.pc.Inside? && status == IDLE + others + Ones(Active(t.pc))
    ensures Excludes(State(s.width, status, s.threads[i := t]))
  {
    var ts := s.threads[i := t];
    SetsAfter(s.threads, i, t);
    var others := Readers(s.threads) - {i};
    if status < IDLE {
      assert Holders(ts) == {i};
      assert Readers(ts) == others;
    } else {
      assert Holders(ts) == {};
      CountAfter(Readers(s.threads), Readers(ts), i, Active(t.pc));
    }
  }

  // ---------- every run ----------

  lemma InitialSafe(width: nat, n: nat)
    ensures Safe(Initial(width, n))
  {
    assert Readers(Initial(width, n).threads) == {} && Holders(Initial(width, n).threads) == {};
  }

  /** Any number of threads the word can count, any interleaving of their steps. */
  lemma {:induction false} RunSafe(width: nat, n: nat, moves: seq<Move>)
    requires IDLE + n < width
    ensures Safe(Run(Initial(width, n), moves)) && |Run(Initial(width, n), moves).threads| == n
    ensures Run(Initial(width, n), moves).width == width
  {
    if moves == [] {
      InitialSafe(width, n);
    } else {
      RunSafe(width, n, moves[..|moves| - 1]);
      StepSafe(Run(Initial(width, n), moves[..|moves| - 1]), moves[|moves| - 1]);
    }
  }

  /** Inside an exclusive window no other thread is in a window of either sort, and the CAS
      that ends the window succeeds. */
  lemma ExclusiveAlone(width: nat, n: nat, moves: seq<Move>, i: nat, choice: Choice)
    requires IDLE + n < width && i < n && |Run(Initial(width, n), moves).threads| == n
    requires Run(Initial(width, n), moves).threads[i].pc.Inside?
    ensures var s := Run(Initial(width, n), moves);
      && s.status == Code(s.threads[i].pc.kind) && Step(s, Move(i, choice)).status == IDLE
      && forall j :: 0 <= j < n && j != i ==> !s.threads[j].pc.Inside? && !Active(s.threads[j].pc)
  {
    RunSafe(width, n, moves);
    var s := Run(Initial(width, n), moves);
    assert i in Holders(s.threads);
    forall j | 0 <= j < n && j != i
      ensures !s.threads[j].pc.Inside? && !Active(s.threads[j].pc)
    {
      assert s.threads[j].pc.Inside? ==> j in Holders(s.threads);
      assert Active(s.threads[j].pc) ==> j in Readers(s.threads);
    }
  }

  /** A thread outside has lowered the status exactly as often as it raised it; with every
      thread outside the table is idle. */
  lemma OutsideBalanced(width: nat, n: nat, moves: seq<Move>)
    requires IDLE + n < width
    ensures var s := Run(Initial(width, n), moves);
      && |s.threads| == n
      && (forall i :: 0 <= i < n && s.threads[i].pc == Outside ==>
           s.threads[i].raised == s.threads[i].lowered && s.threads[i].acquired == s.threads[i].released)
      && ((forall i :: 0 <= i < n ==> s.threads[i].pc == Outside) ==> s.status == IDLE)
  {
    RunSafe(width, n, moves);
    var s := Run(Initial(width, n), moves);
    forall i | 0 <= i < n && s.threads[i].pc == Outside
      ensures s.threads[i].raised == s.threads[i].lowered && s.threads[i].acquired == s.threads[i].released
    {
      assert BalancedAt(s.threads, i);
    }
    if forall i :: 0 <= i < n ==> s.threads[i].pc == Outside {
      assert Readers(s.threads) == {} && Holders(s.threads) == {};
    }
  }

  // ---------- getting in and out ----------

  /** The branches around an exclusive window: an idle word admits, any other word is left alone. */
  lemma AcquireDecides(width: nat, status: nat, kind: Kind, choice: Choice)
    ensures Advance(width, IDLE, Acquire(kind), choice) == (Code(kind), Inside(kind))
    ensures status != IDLE ==>
      Advance(width, status, Acquire(kind), choice) == (status, if kind.Grow? then Outside else Acquire(kind))
    ensures Advance(width, Code(kind), Inside(kind), choice) == (IDLE, Outside)
  {
  }

  /** `k` steps of one thread, none of another. */
  function Alone(width: nat, status: nat, pc: Pc, choice: Choice, k: nat): (nat, Pc)
    decreases k
  {
    if k == 0 then (status, pc) else
      var (status', pc') := Advance(width, status, pc, choice);
      Alone(width, status', pc', choice, k - 1)
  }

  /** Those are steps of the whole system that leave the other threads where they are. */
  lemma {:induction false} AloneIsRun(s: State, tid: nat, choice: Choice, k: nat)
    requires tid < |s.threads|
    ensures var r := Run(s, seq(k, _ => Move(tid, choice)));
      && |r.threads| == |s.threads| && r.width == s.width
      && (r.status, r.threads[tid].pc) == Alone(s.width, s.status, s.threads[tid].pc, choice, k)
      && forall i :: 0 <= i < |s.threads| && i != tid ==> r.threads[i] == s.threads[i]
    decreases k
  {
    if k > 0 {
      var m := Move(tid, choice);
      assert seq(k, _ => m) == [m] + seq(k - 1, _ => m);
      RunCons(s, m, seq(k - 1, _ => m));
      AloneIsRun(Step(s, m), tid, choice, k - 1);
    }
  }

  lemma {:induction false} RunCons(s: State, m: Move, moves: seq<Move>)
    ensures Run(s, [m] + moves) == Run(Step(s, m), moves)
  {
    if moves == [] {
      assert [m] + moves == [m] && [m][..0] == [];
    } else {
      assert ([m] + moves)[..|moves|] == [m] + moves[..|moves| - 1];
      RunCons(s, m, moves[..|moves| - 1]);
    }
  }

  /** An exclusive operation on an idle table takes three steps: request, acquire, release. */
  lemma ExclusiveSteps(width: nat, kind: Kind)
    ensures Alone(width, IDLE, Outside, StartExclusive(kind), 1) == (IDLE, Acquire(kind))
    ensures Alone(width, IDLE, Outside, StartExclusive(kind), 2) == (Code(kind), Inside(kind))
    ensures Alone(width, IDLE, Outside, StartExclusive(kind), 3) == (IDLE, Outside)
  {
    AloneSteps(width, IDLE, Outside, StartExclusive(kind));
  }

  /** So every kind of holder is reachable, and leaves an idle table. */
  lemma HolderReachable(width: nat, n: nat, tid: nat, kind: Kind)
    requires tid < n
    ensures var c := StartExclusive(kind);
      var s2 := Run(Initial(width, n), seq(2, _ => Move(tid, c)));
      var s3 := Run(Initial(width, n), seq(3, _ => Move(tid, c)));
      && |s2.threads| == |s3.threads| == n
      && s2.status == Code(kind) && s2.threads[tid].pc == Inside(kind)
      && s3.status == IDLE && s3.threads[tid].pc == Outside
  {
    ExclusiveSteps(width, kind);
    AloneIsRun(Initial(width, n), tid, StartExclusive(kind), 2);
    AloneIsRun(Initial(width, n), tid, StartExclusive(kind), 3);
  }

  /** A reader that is on its way in, whatever it has seen so far. */
  predicate Entering(pc: Pc)
  {
    pc.Enter? || pc.Seen? || pc.Join? || pc.Rejoin?
  }

  /** With no exclusive holder, a reader left alone is in its window after at most five steps, and
      has raised the word exactly once on the way in. */
  lemma ReaderGetsIn(width: nat, status: nat, pc: Pc, choice: Choice) returns (k: nat)
    requires Entering(pc) && IDLE <= status && status + 1 < width
    ensures k <= 5
    ensures var (status', pc') := Alone(width, status, pc, choice, k);
      pc'.Lookup? && status' == status + Ones(!Active(pc))
  {
    var (s1, p1) := Advance(width, status, pc, choice);
    var (s2, p2) := Advance(width, s1, p1, choice);
    var (s3, p3) := Advance(width, s2, p2, choice);
    var (s4, p4) := Advance(width, s3, p3, choice);
    var (s5, p5) := Advance(width, s4, p4, choice);
    k := if p1.Lookup? then 1 else if p2.Lookup? then 2 else if p3.Lookup? then 3 else if p4.Lookup? then 4 else 5;
    AloneSteps(width, status, pc, choice);
  }

  lemma AloneSteps(width: nat, status: nat, pc: Pc, choice: Choice)
    ensures var (s1, p1) := Advance(width, status, pc, choice);
      var (s2, p2) := Advance(width, s1, p1, choice);
      var (s3, p3) := Advance(width, s2, p2, choice);
      var (s4, p4) := Advance(width, s3, p3, choice);
      && Alone(width, status, pc, choice, 1) == (s1, p1) && Alone(width, status, pc, choice, 2) == (s2, p2)
      && Alone(width, status, pc, choice, 3) == (s3, p3) && Alone(width, status, pc, choice, 4) == (s4, p4)
      && Alone(width, status, pc, choice, 5) == Advance(width, s4, p4, choice)
  {
    AloneNext(width, status, pc, choice, 0);
    AloneNext(width, status, pc, choice, 1);
    AloneNext(width, status, pc, choice, 2);
    AloneNext(width, status, pc, choice, 3);
    AloneNext(width, status, pc, choice, 4);
  }

  lemma {:induction false} AloneNext(width: nat, status: nat, pc: Pc, choice: Choice, k: nat)
    ensures var (s, p) := Alone(width, status, pc, choice, k);
      Alone(width, status, pc, choice, k + 1) == Advance(width, s, p, choice)
    decreases k
  {
    var (s1, p1) := Advance(width, status, pc, choice);
    if k == 0 {
      assert Alone(width, s1, p1, choice, 0) == (s1, p1);
    } else {
      AloneNext(width, s1, p1, choice, k - 1);
    }
  }

  /** A reader left alone in its window is out after at most four steps, and has lowered the word
      exactly once, whatever it took the word to be. */
  lemma ReaderGetsOut(width: nat, status: nat, pc: Pc, choice: Choice) returns (k: nat)
    requires (pc.Lookup? || pc.Leave? || pc.LeaveLast?) && READ <= status < width
    ensures k <= 4 && Alone(width, status, pc, choice, k) == (status - 1, Outside)
  {
    var (s1, p1) := Advance(width, status, pc, choice);
    var (s2, p2) := Advance(width, s1, p1, choice);
    var (s3, p3) := Advance(width, s2, p2, choice);
    k := if p1.Outside? then 1 else if p2.Outside? then 2 else if p3.Outside? then 3 else 4;
    AloneSteps(width, status, pc, choice);
  }

  /** While there is an exclusive holder, a reader on its way in stays there and leaves the word
      alone, however many steps it takes. */
  lemma {:induction false} ReaderWaits(width: nat, status: nat, pc: Pc, choice: Choice, k: nat)
    requires Entering(pc) && !Active(pc) && status < IDLE
    ensures var (status', pc') := Alone(width, status, pc, choice, k);
      status' == status && Entering(pc') && !Active(pc')
    decreases k
  {
    if k > 0 {
      var (status', pc') := Advance(width, status, pc, choice);
      ReaderWaits(width, status', pc', choice, k - 1);
    }
  }

  // ---------- the bound on the number of threads is exact ----------

  /** `m` threads look something up at the same time. */
  ghost predicate Crowd(s: State, n: nat, m: nat)
  {
    && m <= n == |s.threads| && s.status == (if IDLE + m == s.width then CLEAR else IDLE + m)
    && forall i :: 0 <= i < n ==> if i < m then s.threads[i].pc.Lookup? else s.threads[i].pc == Outside
  }

  function FourSteps(s: State, m: Move): State
  {
    Step(Step(Step(Step(s, m), m), m), m)
  }

  /** One more reader joins: four steps. */
  lemma CrowdGrows(s: State, n: nat, m: nat)
    requires Crowd(s, n, m) && m < n && IDLE + m < s.width && READ < s.width
    ensures Crowd(FourSteps(s, Move(m, StartRead)), n, m + 1) && FourSteps(s, Move(m, StartRead)).width == s.width
  {
  }

  lemma RunFour(s: State, moves: seq<Move>, m: Move)
    ensures Run(s, moves + [m] + [m] + [m] + [m]) == FourSteps(Run(s, moves), m)
  {
    RunSnoc(s, moves, m);
    RunSnoc(s, moves + [m], m);
    RunSnoc(s, moves + [m] + [m], m);
    RunSnoc(s, moves + [m] + [m] + [m], m);
  }

  lemma {:induction false} CrowdReachable(width: nat, n: nat, m: nat) returns (moves: seq<Move>)
    requires m <= n && IDLE + m <= width && READ < width
    ensures Crowd(Run(Initial(width, n), moves), n, m) && Run(Initial(width, n), moves).width == width
  {
    moves := [];
    if m > 0 {
      var before := CrowdReachable(width, n, m - 1);
      var x := Move(m - 1, StartRead);
      moves := before + [x] + [x] + [x] + [x];
      RunFour(Initial(width, n), before, x);
      CrowdGrows(Run(Initial(width, n), before), n, m - 1);
    }
  }

  lemma RunSnoc(s: State, moves: seq<Move>, m: Move)
    ensures Run(s, moves + [m]) == Step(Run(s, moves), m)
  {
    assert (moves + [m])[..|moves|] == moves;
  }

  /** Enough simultaneous readers carry the word around to CLEAR. */
  lemma Overflow(width: nat, n: nat) returns (moves: seq<Move>)
    requires READ < width <= IDLE + n
    ensures !Excludes(Run(Initial(width, n), moves))
  {
    moves := CrowdReachable(width, n, width - IDLE);
    var s := Run(Initial(width, n), moves);
    assert s.status == CLEAR && 0 in Readers(s.threads);
  }

  ghost predicate AlwaysExcludes(width: nat, n: nat)
  {
    forall moves :: Excludes(Run(Initial(width, n), moves))
  }

  /** The exclusion claim holds in all runs of `n` threads exactly if the word can count them: for
      32 bits as for the single byte of a packed enum. */
  lemma SafeIffCountable(width: nat, n: nat)
    requires READ < width
    ensures AlwaysExcludes(width, n) <==> IDLE + n < width
  {
    if IDLE + n < width {
      forall moves ensures Excludes(Run(Initial(width, n), moves)) { RunSafe(width, n, moves); }
    } else {
      var moves := Overflow(width, n);
    }
  }
}
