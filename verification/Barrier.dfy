/** The reusable thread barrier of the built-in kernel simulation, stepped under its mutex. */
module ThreadBarrier {
  import opened Arithmetic

  // ----- the barrier object ---------------------------------------------------------------

  /** The protected fields: threads still missing, threads in all, and a 32-bit generation counter. */
  datatype Fields = Fields(count: int, initialCount: int, counter: nat)

  /** The last thread missing opens the barrier instead of waiting. */
  predicate Opens(b: Fields) { b.count - 1 <= 0 }

  function Arrived(b: Fields): Fields {
    if Opens(b) then Fields(b.initialCount, b.initialCount, Wrap32(b.counter + 1))
    else b.(count := b.count - 1)
  }

  /** The loop test of a waiting thread: the generation whose counter it saved is still the current one. */
  predicate SameGeneration(b: Fields, ticket: nat) { ticket == b.counter }

  class SynchronizationBarrier {
    const initialCount: int
    var count: int
    var counter: nat

    constructor (count: int)
      ensures State() == Fields(count, count, 0)
    {
      initialCount := count;
      this.count := count;
      counter := 0;
    }

    function State(): Fields
      reads this
    {
      Fields(count, initialCount, counter)
    }

    /** From taking the lock to the first wait or the return; ticket is the saved counter. */
    method Arrive() returns (ticket: nat, waits: bool)
      modifies this
      ensures State() == Arrived(old(State()))
      ensures ticket == old(counter) && waits == !Opens(old(State()))
    {
      count := count - 1;
      ticket := counter;
      if count > 0 {
        waits := true;
      } else {
        count := initialCount;
        counter := Wrap32(counter + 1);
        waits := false;
      }
    }

    /** The test of a thread that holds the lock again, notified or woken spuriously. */
    method MustWait(ticket: nat) returns (again: bool)
      ensures again <==> SameGeneration(State(), ticket)
    {
      again := ticket == counter;
    }
  }

  // ----- the threads ----------------------------------------------------------------------

  /**
   * A thread between two enters, or waiting in one with the counter it saved; started counts enters.
   * A waiting thread is asleep on the condition variable until it is notified or wakes spuriously.
   */
  datatype Thread = Outside(started: nat) | Waiting(started: nat, ticket: nat, asleep: bool) {
    function Returned(): int { if Outside? then started else started - 1 }
  }

  datatype System = System(barrier: Fields, threads: seq<Thread>)

  /**
   * A thread enters, or a waiting thread that is awake re-tests its loop condition; both hold the
   * mutex. Wake is a spurious wake-up.
   */
  datatype Step = Enter(thread: nat) | Recheck(thread: nat) | Wake(thread: nat)

  function Woken(t: Thread): Thread { if t.Waiting? then t.(asleep := false) else t }

  /** The last thread to arrive notifies all that wait. */
  function NotifyAll(threads: seq<Thread>): (r: seq<Thread>)
    ensures |r| == |threads|
  {
    seq(|threads|, i requires 0 <= i < |threads| => Woken(threads[i]))
  }

  function Initial(n: nat): System {
    System(Fields(n, n, 0), seq(n, _ => Outside(0)))
  }

  predicate Enabled(s: System, step: Step) {
    step.thread < |s.threads| &&
    match step
    case Enter(i) => s.threads[i].Outside?
    case Recheck(i) => s.threads[i].Waiting? && !s.threads[i].asleep
    case Wake(i) => s.threads[i].Waiting?
  }

  function Next(s: System, step: Step): System
    requires Enabled(s, step)
  {
    var t := s.threads[step.thread];
    match step
    case Enter(i) =>
      if Opens(s.barrier) then System(Arrived(s.barrier), NotifyAll(s.threads[i := Outside(t.started + 1)]))
      else System(Arrived(s.barrier), s.threads[i := Waiting(t.started + 1, s.barrier.counter, true)])
    case Recheck(i) =>
      s.(threads := s.threads[i := if SameGeneration(s.barrier, t.ticket) then t.(asleep := true) else Outside(t.started)])
    case Wake(i) => s.(threads := s.threads[i := Woken(t)])
  }

  predicate ValidRun(s: System, run: seq<Step>)
    decreases |run|
  {
    run == [] || (Enabled(s, run[0]) && ValidRun(Next(s, run[0]), run[1..]))
  }

  function After(s: System, run: seq<Step>): System
    requires ValidRun(s, run)
    decreases |run|
  {
    if run == [] then s else After(Next(s, run[0]), run[1..])
  }

  // ----- the invariant --------------------------------------------------------------------

  /** The threads waiting in generation g, the current one. */
  ghost function Current(s: System, g: nat): set<nat> {
    set i: nat | i < |s.threads| && s.threads[i].Waiting? && s.threads[i].started == g + 1
  }

  ghost predicate ThreadOk(t: Thread, g: nat) {
    match t
    case Outside(started) => started == g
    case Waiting(started, ticket, asleep) =>
      (started == g + 1 && ticket == Wrap32(g)) || (started == g >= 1 && ticket == Wrap32(g - 1) && !asleep)
  }

  /**
   * With g generations completed, a thread outside has finished all g of them; a waiter is in the
   * current generation or, woken up, has just been released from the one before; those still
   * missing and the current waiters make up all threads, and at least one is missing.
   */
  ghost predicate Inv(s: System, g: nat) {
    && s.barrier.initialCount == |s.threads| && s.barrier.counter == Wrap32(g)
    && (forall i :: 0 <= i < |s.threads| ==> ThreadOk(s.threads[i], g))
    && s.barrier.count + |Current(s, g)| == |s.threads| && s.barrier.count >= 1
  }

  lemma InitialInv(n: nat)
    requires n >= 1
    ensures Inv(Initial(n), 0)
  {
    assert Current(Initial(n), 0) == {};
  }

  /** Consecutive generations never share a counter value, even when the counter wraps around. */
  lemma CountersDiffer(g: nat)
    requires g >= 1
    ensures Wrap32(g) != Wrap32(g - 1)
  {
  }

  ghost function Indices(n: nat): (r: set<nat>)
    ensures forall i: nat :: i in r <==> i < n
    ensures |r| == n
  {
    if n == 0 then {} else Indices(n - 1) + {n - 1}
  }

  /** When a single thread is missing, all others wait in the current generation. */
  lemma OthersWait(s: System, g: nat, i: nat)
    requires Inv(s, g) && s.barrier.count == 1 && i < |s.threads| && s.threads[i].Outside?
    ensures forall j: nat :: j < |s.threads| && j != i ==> j in Current(s, g)
  {
    var others := Indices(|s.threads|) - {i};
    SubsetOfSameSize(Current(s, g), others);
  }

  lemma SubsetOfSameSize(a: set<nat>, b: set<nat>)
    requires a <= b && |a| == |b|
    ensures a == b
  {
    assert b == a + (b - a);
    assert |b| == |a| + |b - a|;
  }

  lemma EnterInv(s: System, g: nat, i: nat) returns (h: nat)
    requires Inv(s, g) && Enabled(s, Enter(i))
    ensures Inv(Next(s, Enter(i)), h) && h == (if Opens(s.barrier) then g + 1 else g)
  {
    if Opens(s.barrier) {
      h := g + 1;
      OpenInv(s, g, i);
    } else {
      h := g;
      var s' := Next(s, Enter(i));
      assert Current(s', g) == Current(s, g) + {i};
    }
  }

  lemma OpenInv(s: System, g: nat, i: nat)
    requires Inv(s, g) && Enabled(s, Enter(i)) && Opens(s.barrier)
    ensures Inv(Next(s, Enter(i)), g + 1)
  {
    var s' := Next(s, Enter(i));
    OthersWait(s, g, i);
    forall j | 0 <= j < |s'.threads| ensures ThreadOk(s'.threads[j], g + 1) {
      if j != i { assert j in Current(s, g) && ThreadOk(s.threads[j], g); }
    }
    assert Current(s', g + 1) == {};
  }

  lemma RecheckInv(s: System, g: nat, i: nat)
    requires Inv(s, g) && Enabled(s, Recheck(i))
    ensures Inv(Next(s, Recheck(i)), g)
  {
    assert ThreadOk(s.threads[i], g);
    assert Current(Next(s, Recheck(i)), g) == Current(s, g);
  }

  lemma WakeInv(s: System, g: nat, i: nat)
    requires Inv(s, g) && Enabled(s, Wake(i))
    ensures Inv(Next(s, Wake(i)), g)
  {
    assert ThreadOk(s.threads[i], g);
    assert Current(Next(s, Wake(i)), g) == Current(s, g);
  }

  lemma {:induction false} RunInv(s: System, run: seq<Step>, g: nat) returns (h: nat)
    requires Inv(s, g) && ValidRun(s, run)
    ensures Inv(After(s, run), h) && |After(s, run).threads| == |s.threads|
    decreases |run|
  {
    h := g;
    if run != [] {
      match run[0] {
        case Enter(i) => h := EnterInv(s, g, i);
        case Recheck(i) => RecheckInv(s, g, i);
        case Wake(i) => WakeInv(s, g, i);
      }
      h := RunInv(Next(s, run[0]), run[1..], h);
    }
  }

  // ----- what the barrier promises --------------------------------------------------------

  /** No thread has returned from its k-th enter before every thread has started its k-th enter. */
  lemma BarrierIsSafe(n: nat, run: seq<Step>, i: nat, j: nat)
    requires n >= 1 && ValidRun(Initial(n), run) && i < n && j < n
    ensures |After(Initial(n), run).threads| == n
    ensures After(Initial(n), run).threads[i].Returned() <= After(Initial(n), run).threads[j].started
  {
    InitialInv(n);
    var g := RunInv(Initial(n), run, 0);
    var s := After(Initial(n), run);
    assert ThreadOk(s.threads[i], g) && ThreadOk(s.threads[j], g);
  }

  ghost predicate AllStarted(s: System, k: nat) {
    forall j :: 0 <= j < |s.threads| ==> s.threads[j].started >= k
  }

  /** A waiter's test lets it return exactly when every thread has started the same enter. */
  lemma WaiterReturnsIff(n: nat, run: seq<Step>, i: nat)
    requires n >= 1 && ValidRun(Initial(n), run) && i < n
    ensures var s := After(Initial(n), run);
      |s.threads| == n && (s.threads[i].Waiting? ==>
        (!SameGeneration(s.barrier, s.threads[i].ticket) <==> AllStarted(s, s.threads[i].started)))
  {
    InitialInv(n);
    var g := RunInv(Initial(n), run, 0);
    var s := After(Initial(n), run);
    var t := s.threads[i];
    assert ThreadOk(t, g);
    if g >= 1 { CountersDiffer(g); }
    if t.Waiting? && t.started == g + 1 {
      var j := SomeoneMissing(s, g);
      assert s.threads[j].started == g;
    } else {
      assert forall j :: 0 <= j < |s.threads| ==> ThreadOk(s.threads[j], g) ==> s.threads[j].started >= g;
    }
  }

  /** In every reachable state some thread has not joined the current generation. */
  lemma SomeoneMissing(s: System, g: nat) returns (j: nat)
    requires Inv(s, g)
    ensures j < |s.threads| && s.threads[j].started == g
  {
    var all := Indices(|s.threads|);
    assert all != Current(s, g);
    assert Current(s, g) <= all;
    j :| j in all && j !in Current(s, g);
    assert ThreadOk(s.threads[j], g);
  }

  /** Each thread enters at most k times in the run. */
  ghost predicate AtMost(s: System, k: nat) {
    forall j :: 0 <= j < |s.threads| ==> s.threads[j].started <= k
  }

  /** A thread sleeps only in the current generation: whoever is released has been notified. */
  lemma SleepersAreCurrent(n: nat, run: seq<Step>, i: nat)
    requires n >= 1 && ValidRun(Initial(n), run) && i < n
    ensures var s := After(Initial(n), run);
      |s.threads| == n && (s.threads[i].Waiting? && s.threads[i].asleep ==> SameGeneration(s.barrier, s.threads[i].ticket))
  {
    InitialInv(n);
    var g := RunInv(Initial(n), run, 0);
    assert ThreadOk(After(Initial(n), run).threads[i], g);
  }

  /**
   * A step of a workload in which every thread enters k times that brings it on: an enter, or a
   * thread that is awake and leaves. Spurious wake-ups are none.
   */
  predicate Progress(s: System, step: Step, k: nat) {
    Enabled(s, step) &&
    match step
    case Enter(i) => s.threads[i].started < k
    case Recheck(i) => !SameGeneration(s.barrier, s.threads[i].ticket)
    case Wake(i) => false
  }

  /** No deadlock: while a thread has not returned from its k-th enter, some thread can move on. */
  lemma NoDeadlock(n: nat, run: seq<Step>, k: nat) returns (step: Step)
    requires n >= 1 && ValidRun(Initial(n), run)
    requires AtMost(After(Initial(n), run), k)
    requires exists i :: 0 <= i < |After(Initial(n), run).threads| && After(Initial(n), run).threads[i].Returned() < k
    ensures Progress(After(Initial(n), run), step, k)
  {
    InitialInv(n);
    var g := RunInv(Initial(n), run, 0);
    var s := After(Initial(n), run);
    var i :| 0 <= i < |s.threads| && s.threads[i].Returned() < k;
    var j := SomeoneMissing(s, g);
    assert ThreadOk(s.threads[i], g) && ThreadOk(s.threads[j], g);
    if g >= 1 { CountersDiffer(g); }
    step := if s.threads[i].Waiting? && s.threads[i].started == g then Recheck(i)
            else if s.threads[j].Outside? then Enter(j) else Recheck(j);
  }

  /** What a workload of k enters per thread still has to do: enters to start and to return from. */
  function Work(threads: seq<Thread>, k: nat): int {
    if threads == [] then 0 else 2 * k - threads[0].started - threads[0].Returned() + Work(threads[1..], k)
  }

  lemma {:induction false} WorkUpdate(threads: seq<Thread>, k: nat, i: nat, t: Thread)
    requires i < |threads|
    ensures Work(threads[i := t], k) ==
            Work(threads, k) + threads[i].started + threads[i].Returned() - t.started - t.Returned()
  {
    if i == 0 {
      assert threads[i := t][1..] == threads[1..];
    } else {
      assert threads[i := t][1..] == threads[1..][i - 1 := t];
      WorkUpdate(threads[1..], k, i - 1, t);
    }
  }

  lemma {:induction false} WorkBounds(threads: seq<Thread>, k: nat)
    requires forall j :: 0 <= j < |threads| ==> threads[j].started <= k
    ensures 0 <= Work(threads, k)
  {
    if threads != [] {
      assert threads[0].started <= k;
      WorkBounds(threads[1..], k);
    }
  }

  lemma {:induction false} NotifyKeepsWork(threads: seq<Thread>, k: nat)
    ensures Work(NotifyAll(threads), k) == Work(threads, k)
  {
    if threads != [] {
      assert NotifyAll(threads)[1..] == NotifyAll(threads[1..]);
      NotifyKeepsWork(threads[1..], k);
    }
  }

  /** Progress cannot go on forever: each such step leaves less work, so with NoDeadlock it gets done. */
  lemma ProgressShrinksWork(s: System, step: Step, k: nat)
    requires Progress(s, step, k) && AtMost(s, k)
    ensures AtMost(Next(s, step), k) && 0 <= Work(Next(s, step).threads, k) < Work(s.threads, k)
  {
    var s', t := Next(s, step), s.threads[step.thread];
    WorkUpdate(s.threads, k, step.thread, s'.threads[step.thread]);
    if step.Enter? && Opens(s.barrier) { NotifyKeepsWork(s.threads[step.thread := Outside(t.started + 1)], k); }
    WorkBounds(s'.threads, k);
  }

  /** The other steps, spurious wake-ups and re-tests that fail, leave the work as it is. */
  lemma OtherStepsKeepWork(s: System, step: Step, k: nat)
    requires Enabled(s, step) && !step.Enter? && !Progress(s, step, k)
    ensures Work(Next(s, step).threads, k) == Work(s.threads, k)
  {
    WorkUpdate(s.threads, k, step.thread, Next(s, step).threads[step.thread]);
  }

  /** When the barrier is about to open, no thread is still to leave the generation before. */
  lemma NoneReleased(s: System, g: nat, opener: nat, i: nat)
    requires Inv(s, g) && s.barrier.count == 1 && opener < |s.threads| && s.threads[opener].Outside?
    requires i < |s.threads| && s.threads[i].Waiting?
    ensures s.threads[i].ticket == s.barrier.counter
  {
    OthersWait(s, g, opener);
    assert i in Current(s, g) && ThreadOk(s.threads[i], g);
  }

  /** A released thread stays awake and free to leave, whatever the others do in the meantime. */
  lemma ReleasedStaysFree(n: nat, run: seq<Step>, step: Step, i: nat, k: nat)
    requires n >= 1 && ValidRun(Initial(n), run) && Enabled(After(Initial(n), run), step) && step != Recheck(i)
    requires Progress(After(Initial(n), run), Recheck(i), k)
    ensures Progress(Next(After(Initial(n), run), step), Recheck(i), k)
  {
    InitialInv(n);
    var g := RunInv(Initial(n), run, 0);
    var s := After(Initial(n), run);
    assert ThreadOk(s.threads[i], g);
    if step.Enter? && Opens(s.barrier) {
      NoneReleased(s, g, step.thread, i);
    }
  }

  /** The missing threads and the waiters of the current generation add up to all threads. */
  lemma CountAccountsForAll(n: nat, run: seq<Step>)
    requires n >= 1 && ValidRun(Initial(n), run)
    ensures var s := After(Initial(n), run);
      && 1 <= s.barrier.count <= n
      && s.barrier.count + |set i: nat | i < |s.threads| && s.threads[i].Waiting?
          && s.threads[i].ticket == s.barrier.counter| == n
  {
    InitialInv(n);
    var g := RunInv(Initial(n), run, 0);
    var s := After(Initial(n), run);
    var waiters := set i: nat | i < |s.threads| && s.threads[i].Waiting? && s.threads[i].ticket == s.barrier.counter;
    if g >= 1 { CountersDiffer(g); }
    forall i: nat | i < |s.threads| ensures i in waiters <==> i in Current(s, g) {
      assert ThreadOk(s.threads[i], g);
    }
    assert waiters == Current(s, g);
  }
}
