/** Task levels: how command queues order commands by giving each a level, over unblocked runs. */
module TaskLevels {
  import opened Arithmetic

  /** Event::eventNotReady: the level and count of an event whose command has not been submitted. */
  const NOT_READY: nat := 0xffff_fff0

  datatype CommandType =
    NdRangeKernel | Transfer | Barrier | Marker | MigrateMemObjects | SvmMap | SvmUnmap | SvmFree

  predicate IsCommandWithoutKernel(c: CommandType) {
    c.Barrier? || c.Marker? || c.MigrateMemObjects? || c.SvmMap? || c.SvmUnmap? || c.SvmFree?
  }

  datatype Event = Event(taskLevel: nat, taskCount: nat, isUserEvent: bool, isExternallySynchronized: bool)

  /** A wait list is absent (a null pointer) or a list of events. */
  datatype WaitList = NoList | Events(list: seq<Event>) {
    function Elements(): seq<Event> { if NoList? then [] else list }
  }

  datatype CompletionStamp = CompletionStamp(taskCount: nat, taskLevel: nat, flushStamp: nat)

  datatype Queue = Queue(taskLevel: nat, taskCount: nat, flushStamp: nat, outOfOrder: bool)

  // ----- one enqueue ----------------------------------------------------------------------

  function MaxLevel(level: nat, events: seq<Event>): nat
    decreases |events|
  {
    if events == [] then level else MaxLevel(Max(level, events[0].taskLevel), events[1..])
  }

  lemma {:induction false} MaxLevelBounds(level: nat, events: seq<Event>)
    ensures MaxLevel(level, events) >= level
    ensures forall e :: e in events ==> e.taskLevel <= MaxLevel(level, events)
    ensures MaxLevel(level, events) == level || exists e :: e in events && e.taskLevel == MaxLevel(level, events)
    decreases |events|
  {
    if events != [] {
      MaxLevelBounds(Max(level, events[0].taskLevel), events[1..]);
    }
  }

  lemma {:induction false} MaxLevelSplits(level: nat, events: seq<Event>)
    ensures MaxLevel(level, events) == Max(level, MaxLevel(0, events))
    decreases |events|
  {
    if events != [] {
      MaxLevelSplits(Max(level, events[0].taskLevel), events[1..]);
      MaxLevelSplits(Max(0, events[0].taskLevel), events[1..]);
    }
  }

  function MaxCount(count: nat, events: seq<Event>): nat
    decreases |events|
  {
    if events == [] then count
    else if !events[0].isUserEvent && !events[0].isExternallySynchronized then
      MaxCount(Max(count, events[0].taskCount), events[1..])
    else MaxCount(count, events[1..])
  }

  lemma {:induction false} MaxCountBounds(count: nat, events: seq<Event>)
    ensures MaxCount(count, events) >= count
    ensures MaxCount(count, events) == count || exists e :: e in events && e.taskCount == MaxCount(count, events)
    ensures forall e :: e in events && !e.isUserEvent && !e.isExternallySynchronized ==>
              e.taskCount <= MaxCount(count, events)
    decreases |events|
  {
    if events != [] {
      MaxCountBounds(count, events[1..]);
      MaxCountBounds(Max(count, events[0].taskCount), events[1..]);
    }
  }

  predicate IsTaskLevelUpdateRequired(q: Queue, taskLevel: nat, waitList: WaitList, c: CommandType) {
    && taskLevel != NOT_READY
    && !(IsCommandWithoutKernel(c) && !c.Barrier?)
    && !(q.outOfOrder && waitList.NoList? && !c.Barrier?)
    && !(q.outOfOrder && waitList.Events? && MaxLevel(0, waitList.list) + 1 <= q.taskLevel)
  }

  /** The level a command is submitted with. */
  function SubmitLevel(q: Queue, waitList: WaitList, c: CommandType): nat {
    var level := MaxLevel(q.taskLevel, waitList.Elements());
    if IsTaskLevelUpdateRequired(q, level, waitList, c) then level + 1 else level
  }

  /** A dispatch that turned out empty is enqueued as a marker. */
  function Effective(c: CommandType, emptyDispatch: bool): CommandType {
    if emptyDispatch && !IsCommandWithoutKernel(c) then Marker else c
  }

  /** Nothing the command depends on is still waiting for a submission. */
  predicate Unblocked(q: Queue, waitList: WaitList) {
    q.taskLevel < NOT_READY && forall i :: 0 <= i < |waitList.Elements()| ==> waitList.Elements()[i].taskLevel < NOT_READY
  }

  /** What a submission may answer: a level no lower than asked for, and no task count going backwards. */
  predicate FlushAnswers(q: Queue, level: nat, flush: CompletionStamp) {
    level <= flush.taskLevel && q.taskCount <= flush.taskCount
  }

  /** The stamp of a command: the answer of the submission, or inherited if nothing is submitted. */
  function StampOf(q: Queue, waitList: WaitList, c: CommandType, flush: CompletionStamp): CompletionStamp {
    if !IsCommandWithoutKernel(c) then flush
    else CompletionStamp(MaxCount(q.taskCount, waitList.Elements()), SubmitLevel(q, waitList, c), q.flushStamp)
  }

  function QueueAfter(q: Queue, stamp: CompletionStamp): Queue {
    Queue(stamp.taskLevel, if stamp.taskCount != NOT_READY then stamp.taskCount else q.taskCount, stamp.flushStamp,
        q.outOfOrder)
  }

  class CommandQueue {
    var taskLevel: nat
    var taskCount: nat
    var flushStamp: nat
    const outOfOrder: bool

    constructor (outOfOrder: bool)
      ensures State() == Queue(0, 0, 0, outOfOrder)
    {
      taskLevel, taskCount, flushStamp := 0, 0, 0;
      this.outOfOrder := outOfOrder;
    }

    function State(): Queue
      reads this
    {
      Queue(taskLevel, taskCount, flushStamp, outOfOrder)
    }

    static method GetTaskLevelFromWaitList(level: nat, events: seq<Event>) returns (r: nat)
      ensures r == MaxLevel(level, events)
    {
      r := level;
      for i := 0 to |events|
        invariant MaxLevel(r, events[i..]) == MaxLevel(level, events)
      {
        r := Max(r, events[i].taskLevel);
        assert events[i..][1..] == events[i + 1..];
      }
      assert events[|events|..] == [];
    }

    method TaskLevelUpdateRequired(level: nat, waitList: WaitList, c: CommandType) returns (update: bool)
      ensures update == IsTaskLevelUpdateRequired(State(), level, waitList, c)
    {
      update := true;
      if level == NOT_READY {
        update := false;
      }
      if IsCommandWithoutKernel(c) && !c.Barrier? {
        update := false;
      }
      if outOfOrder {
        if waitList.NoList? && !c.Barrier? {
          update := false;
        }
        if waitList.Events? {
          var levelFromEvents := GetTaskLevelFromWaitList(0, waitList.list);
          levelFromEvents := levelFromEvents + 1;
          if levelFromEvents <= taskLevel {
            update := false;
          }
        }
      }
    }

    method ObtainTaskLevel(waitList: WaitList, c: CommandType) returns (level: nat)
      modifies this`taskLevel
      ensures level == SubmitLevel(old(State()), waitList, c)
      ensures taskLevel == if IsTaskLevelUpdateRequired(old(State()), MaxLevel(old(taskLevel),
        waitList.Elements()), waitList, c)
                           then level else old(taskLevel)
    {
      level := GetTaskLevelFromWaitList(taskLevel, waitList.Elements());
      var update := TaskLevelUpdateRequired(level, waitList, c);
      if update {
        level := level + 1;
        taskLevel := level;
      }
    }

    method UpdateFromCompletionStamp(stamp: CompletionStamp)
      modifies this
      ensures State() == QueueAfter(old(State()), stamp)
    {
      if stamp.taskCount != NOT_READY {
        taskCount := stamp.taskCount;
      }
      flushStamp := stamp.flushStamp;
      taskLevel := stamp.taskLevel;
    }

    /** The handler on its unblocked path; flush is what the submission will answer, if there is one. */
    method EnqueueHandler(c: CommandType, emptyDispatch: bool, waitList: WaitList, flush: CompletionStamp)
      returns (stamp: CompletionStamp)
      requires Unblocked(State(), waitList)
      modifies this
      ensures stamp == StampOf(old(State()), waitList, Effective(c, emptyDispatch), flush)
      ensures State() == QueueAfter(old(State()), stamp)
    {
      var command := if emptyDispatch && !IsCommandWithoutKernel(c) then Marker else c;
      var level := ObtainTaskLevel(waitList, command);
      if !IsCommandWithoutKernel(command) {
        stamp := flush;
      } else {
        var maxTaskCount: nat := taskCount;
        var events := waitList.Elements();
        for i := 0 to |events|
          invariant MaxCount(maxTaskCount, events[i..]) == MaxCount(taskCount, events)
        {
          if !events[i].isUserEvent && !events[i].isExternallySynchronized {
            maxTaskCount := Max(maxTaskCount, events[i].taskCount);
          }
          assert events[i..][1..] == events[i + 1..];
        }
        assert events[|events|..] == [];
        stamp := CompletionStamp(maxTaskCount, level, flushStamp);
      }
      UpdateFromCompletionStamp(stamp);
    }
  }

  // ----- what one enqueue guarantees ------------------------------------------------------

  lemma SubmitLevelBounds(q: Queue, waitList: WaitList, c: CommandType)
    requires Unblocked(q, waitList)
    ensures SubmitLevel(q, waitList, c) >= q.taskLevel
    ensures forall e :: e in waitList.Elements() ==> e.taskLevel <= SubmitLevel(q, waitList, c)
    ensures !IsCommandWithoutKernel(c) ==> forall e :: e in waitList.Elements() ==> e.taskLevel < SubmitLevel(q, waitList, c)
    ensures !IsCommandWithoutKernel(c) && !q.outOfOrder ==> SubmitLevel(q, waitList, c) > q.taskLevel
  {
    MaxLevelBounds(q.taskLevel, waitList.Elements());
    MaxLevelBounds(0, waitList.Elements());
  }

  /** A command that submits nothing inherits the latest task count of its queue and of the device events in its list. */
  lemma InheritedCount(q: Queue, waitList: WaitList, c: CommandType, flush: CompletionStamp)
    requires Unblocked(q, waitList) && IsCommandWithoutKernel(c)
    ensures var count := StampOf(q, waitList, c, flush).taskCount;
      && q.taskCount <= count
      && (forall e :: e in waitList.Elements() && !e.isUserEvent && !e.isExternallySynchronized ==> e.taskCount <= count)
      && (count == q.taskCount || exists e :: e in waitList.Elements() && e.taskCount == count)
  {
    MaxCountBounds(q.taskCount, waitList.Elements());
  }

  /**
   * A barrier separates everything enqueued before it exactly when the queue is in order, or the
   * barrier has no wait list, or its wait list reaches the queue's own level. In every case the
   * commands after it lie above the events the barrier waits for.
   */
  lemma BarrierSeparatesIff(q: Queue, waitList: WaitList)
    requires Unblocked(q, waitList)
    ensures SubmitLevel(q, waitList, Barrier) > q.taskLevel <==>
            (!q.outOfOrder || waitList.NoList? || MaxLevel(0, waitList.list) >= q.taskLevel)
    ensures forall e :: e in waitList.Elements() ==> e.taskLevel < SubmitLevel(q, waitList, Barrier)
  {
    MaxLevelBounds(q.taskLevel, waitList.Elements());
    MaxLevelBounds(0, waitList.Elements());
    MaxLevelSplits(q.taskLevel, waitList.Elements());
    assert MaxLevel(q.taskLevel, waitList.Elements()) != NOT_READY;
  }

  const AHEAD: Queue := Queue(1, 0, 0, true)
  const OLD_EVENT: WaitList := Events([Event(0, 0, false, false)])

  /** An out-of-order queue at level 1: a barrier that waits for an event of level 0 stays at level 1. */
  lemma BarrierStaysLevel()
    ensures Unblocked(AHEAD, OLD_EVENT) && SubmitLevel(AHEAD, OLD_EVENT, Barrier) == AHEAD.taskLevel
  {
    var list := OLD_EVENT.list;
    assert list[1..] == [] && MaxLevel(0, []) == 0 && MaxLevel(1, []) == 1;
    assert MaxLevel(1, list) == 1 && MaxLevel(0, list) == 0;
  }

  /**
   * The level a command is submitted with. Without a wait list a kernel on an out-of-order queue takes
   * the level of the queue; with one it is just above the list, but not below the queue. On an
   * in-order queue it is above both. A barrier differs only in that it always rises without a list.
   * Everything else takes the greater of the two levels.
   */
  lemma SubmitLevelIs(q: Queue, waitList: WaitList, c: CommandType)
    requires Unblocked(q, waitList)
    ensures var level, kernel, e := SubmitLevel(q, waitList, c), c in {NdRangeKernel, Transfer}, MaxLevel(0, waitList.Elements());
      && (kernel && q.outOfOrder && waitList.NoList? ==> level == q.taskLevel)
      && (c == Barrier && q.outOfOrder && waitList.NoList? ==> level == q.taskLevel + 1)
      && ((kernel || c == Barrier) && q.outOfOrder && waitList.Events? ==> level == if q.taskLevel > e then q.taskLevel else e + 1)
      && ((kernel || c == Barrier) && !q.outOfOrder ==> level == (if q.taskLevel > e then q.taskLevel else e) + 1)
      && (!kernel && c != Barrier ==> level == if q.taskLevel > e then q.taskLevel else e)
  {
    MaxLevelBounds(q.taskLevel, waitList.Elements());
    MaxLevelSplits(q.taskLevel, waitList.Elements());
    if waitList.NoList? { assert MaxLevel(0, []) == 0; }
  }

  /** The level of the queue is raised at once exactly if the command gets a level of its own. */
  lemma RaisedIff(q: Queue, waitList: WaitList, c: CommandType)
    requires Unblocked(q, waitList)
    ensures var level, e := MaxLevel(q.taskLevel, waitList.Elements()), MaxLevel(0, waitList.Elements());
      IsTaskLevelUpdateRequired(q, level, waitList, c) <==>
        (c in {NdRangeKernel, Transfer, Barrier} && (!q.outOfOrder || (waitList.NoList? && c == Barrier) || (waitList.Events? && e >= q.taskLevel)))
  {
    MaxLevelBounds(q.taskLevel, waitList.Elements());
  }

  /**
   * What an enqueue leaves behind. A kernel that is not empty takes what the submission answers;
   * everything else, an empty kernel included, inherits the level and the flush stamp.
   */
  lemma EnqueueLeaves(q: Queue, waitList: WaitList, c: CommandType, emptyDispatch: bool, flush: CompletionStamp)
    requires Unblocked(q, waitList)
    ensures var command := Effective(c, emptyDispatch);
      var stamp, e := StampOf(q, waitList, command, flush), MaxLevel(0, waitList.Elements());
      && (c in {NdRangeKernel, Transfer} && !emptyDispatch ==> stamp == flush)
      && (c in {NdRangeKernel, Transfer} && emptyDispatch ==> stamp.taskLevel == if q.taskLevel > e then q.taskLevel else e)
      && (c !in {NdRangeKernel, Transfer} ==> command == c && stamp.taskLevel == SubmitLevel(q, waitList, c))
      && (c !in {NdRangeKernel, Transfer} || emptyDispatch ==> stamp.flushStamp == q.flushStamp)
      && QueueAfter(q, stamp).taskLevel == stamp.taskLevel && QueueAfter(q, stamp).flushStamp == stamp.flushStamp
      && QueueAfter(q, stamp).outOfOrder == q.outOfOrder
      && (QueueAfter(q, stamp).taskCount == if stamp.taskCount == 0xffff_fff0 then q.taskCount else stamp.taskCount)
  {
    if emptyDispatch { SubmitLevelIs(q, waitList, Marker); }
  }

  // ----- runs over several queues ---------------------------------------------------------

  datatype Origin = UserEvent | Command(queue: nat, kind: CommandType, waits: WaitRefs)

  /** A command names the events it waits for by their position in the log. */
  datatype WaitRefs = NoRefs | Refs(list: seq<nat>)

  /** The log lists every event issued so far, in the order of the enqueues. */
  datatype Entry = Entry(event: Event, origin: Origin)

  datatype System = System(queues: seq<Queue>, log: seq<Entry>)

  /** An application completes a user event, or enqueues a command; flush answers its submission. */
  datatype Step =
    | CompleteUserEvent(event: Event)
    | Enqueue(queue: nat, command: CommandType, emptyDispatch: bool, waits: WaitRefs, external: bool,
        flush: CompletionStamp)

  function ListOf(log: seq<Entry>, waits: WaitRefs): WaitList
    requires waits.Refs? ==> forall i :: 0 <= i < |waits.list| ==> waits.list[i] < |log|
  {
    if waits.NoRefs? then NoList else Events(seq(|waits.list|,
        i requires 0 <= i < |waits.list| => log[waits.list[i]].event))
  }

  predicate RefsOk(log: seq<Entry>, waits: WaitRefs) {
    waits.Refs? ==> forall i :: 0 <= i < |waits.list| ==> waits.list[i] < |log|
  }

  predicate Enabled(s: System, step: Step) {
    match step
    case CompleteUserEvent(e) => e.isUserEvent && e.taskLevel < NOT_READY
    case Enqueue(queue, c, empty, waits, _, flush) =>
      && queue < |s.queues| && RefsOk(s.log, waits)
      && var q, list, command := s.queues[queue], ListOf(s.log, waits), Effective(c, empty);
      && Unblocked(q, list)
      && (!IsCommandWithoutKernel(command) ==> FlushAnswers(q, SubmitLevel(q, list, command), flush))
      && StampOf(q, list, command, flush).taskLevel < NOT_READY
  }

  function Next(s: System, step: Step): System
    requires Enabled(s, step)
  {
    match step
    case CompleteUserEvent(e) => s.(log := s.log + [Entry(e, UserEvent)])
    case Enqueue(queue, c, empty, waits, external, flush) =>
      var q, command := s.queues[queue], Effective(c, empty);
      var stamp := StampOf(q, ListOf(s.log, waits), command, flush);
      System(s.queues[queue := QueueAfter(q, stamp)],
             s.log + [Entry(Event(stamp.taskLevel, stamp.taskCount, false, external), Command(queue, command, waits))])
  }

  predicate ValidRun(s: System, run: seq<Step>)
    decreases |run|
  {
    run == [] || (Enabled(s, run[0]) && ValidRun(Next(s, run[0]), run[1..]))
  }

  function After(s: System, run: seq<Step>): System
    requires ValidRun(s, run)
    decreases |run|
  {
    if run == [] then s else After(Next(s, run[0]), run[1..])
  }

  /** Fresh queues, each in order or out of order, and no event yet. */
  predicate Fresh(s: System) {
    s.log == [] && forall i :: 0 <= i < |s.queues| ==> s.queues[i] == Queue(0, 0, 0, s.queues[i].outOfOrder)
  }

  // ----- dependencies ---------------------------------------------------------------------

  predicate SameQueue(log: seq<Entry>, a: nat, b: nat) {
    a < |log| && b < |log| && log[a].origin.Command? && log[b].origin.Command?
        && log[a].origin.queue == log[b].origin.queue
  }

  predicate IsKernel(log: seq<Entry>, b: nat) {
    b < |log| && log[b].origin.Command? && !IsCommandWithoutKernel(log[b].origin.kind)
  }

  predicate IsBarrier(log: seq<Entry>, b: nat) {
    b < |log| && log[b].origin.Command? && log[b].origin.kind.Barrier? && log[b].origin.waits.NoRefs?
  }

  /** b has a in its wait list. */
  predicate WaitsFor(log: seq<Entry>, a: nat, b: nat) {
    a < b < |log| && log[b].origin.Command? && log[b].origin.waits.Refs? && a in log[b].origin.waits.list
  }

  /** a precedes b on a queue that runs its commands in order. */
  predicate InOrder(queues: seq<Queue>, log: seq<Entry>, a: nat, b: nat) {
    a < b && SameQueue(log, a, b) && log[a].origin.queue < |queues| && !queues[log[a].origin.queue].outOfOrder
  }

  /** A barrier without a wait list lies after a, and b is that barrier or comes after it. */
  ghost predicate AcrossBarrier(log: seq<Entry>, a: nat, b: nat) {
    SameQueue(log, a, b) && exists c :: a < c <= b && SameQueue(log, a, c) && IsBarrier(log, c)
  }

  predicate IsBarrierFor(log: seq<Entry>, a: nat, c: nat) {
    WaitsFor(log, a, c) && log[c].origin.kind.Barrier?
  }

  /** A barrier has a in its wait list, and b is that barrier or comes after it on the same queue. */
  ghost predicate AfterListBarrier(log: seq<Entry>, a: nat, b: nat) {
    exists c :: a < c <= b && SameQueue(log, c, b) && IsBarrierFor(log, a, c)
  }

  /** b is a marker or barrier without a wait list, which stands for all earlier commands of its queue. */
  predicate Marked(log: seq<Entry>, a: nat, b: nat) {
    a < b && SameQueue(log, a, b) && log[b].origin.waits.NoRefs?
        && (log[b].origin.kind.Marker? || log[b].origin.kind.Barrier?)
  }

  /** What lies across a barrier, or was waited for by one, comes before b without exception. */
  ghost predicate BarrierBetween(log: seq<Entry>, a: nat, b: nat) {
    AcrossBarrier(log, a, b) || AfterListBarrier(log, a, b)
  }

  /** The execution model (OpenCL 1.2, sections 5.10 and 5.11) makes b wait for a, directly. */
  ghost predicate Depends(s: System, a: nat, b: nat) {
    WaitsFor(s.log, a, b) || InOrder(s.queues, s.log, a, b) || Marked(s.log, a, b) || BarrierBetween(s.log, a, b)
  }

  function LevelAt(log: seq<Entry>, i: nat): nat
    requires i < |log|
  {
    log[i].event.taskLevel
  }

  // ----- the invariant --------------------------------------------------------------------

  /** The level of b respects its dependency on a: never below, and above it for kernels and barriers. */
  ghost predicate Respects(s: System, a: nat, b: nat)
    requires a < |s.log| && b < |s.log|
  {
    (Depends(s, a, b) ==> LevelAt(s.log, a) <= LevelAt(s.log, b)) &&
    (Depends(s, a, b) && IsKernel(s.log, b) ==> LevelAt(s.log, a) < LevelAt(s.log, b)) &&
    (BarrierBetween(s.log, a, b) ==> LevelAt(s.log, a) < LevelAt(s.log, b))
  }

  ghost predicate Bounded(s: System, a: nat)
    requires a < |s.log|
  {
    s.log[a].origin.Command? ==>
      s.log[a].origin.queue < |s.queues| && LevelAt(s.log, a) <= s.queues[s.log[a].origin.queue].taskLevel
  }

  ghost predicate Inv(s: System) {
    (forall a :: 0 <= a < |s.log| ==> Bounded(s, a)) &&
    (forall a, b :: 0 <= a < |s.log| && 0 <= b < |s.log| ==> Respects(s, a, b))
  }

  lemma OldDependency(s: System, step: Step, a: nat, b: nat)
    requires Inv(s) && Enabled(s, step) && a < |s.log| && b < |s.log|
    ensures Respects(Next(s, step), a, b)
  {
    var s' := Next(s, step);
    assert Respects(s, a, b);
    assert forall i :: 0 <= i < |s.log| ==> s'.log[i] == s.log[i];
    assert WaitsFor(s'.log, a, b) == WaitsFor(s.log, a, b);
    assert InOrder(s'.queues, s'.log, a, b) ==> InOrder(s.queues, s.log, a, b) by { assert Bounded(s, a); }
    if AcrossBarrier(s'.log, a, b) {
      var c :| a < c <= b && SameQueue(s'.log, a, c) && IsBarrier(s'.log, c);
      assert SameQueue(s.log, a, c) && IsBarrier(s.log, c);
    }
    if AfterListBarrier(s'.log, a, b) {
      var c :| a < c <= b && SameQueue(s'.log, c, b) && IsBarrierFor(s'.log, a, c);
      assert SameQueue(s.log, c, b) && IsBarrierFor(s.log, a, c);
    }
    assert Marked(s'.log, a, b) == Marked(s.log, a, b);
  }

  lemma QueueNeverFalls(s: System, step: Step, i: nat)
    requires Enabled(s, step) && i < |s.queues|
    ensures |Next(s, step).queues| == |s.queues|
    ensures Next(s, step).queues[i].taskLevel >= s.queues[i].taskLevel
    ensures Next(s, step).queues[i].taskCount >= s.queues[i].taskCount
    ensures Next(s, step).queues[i].outOfOrder == s.queues[i].outOfOrder
  {
    if step.Enqueue? {
      var q, list, c := s.queues[step.queue], ListOf(s.log, step.waits), Effective(step.command, step.emptyDispatch);
      SubmitLevelBounds(q, list, c);
      if IsCommandWithoutKernel(c) { InheritedCount(q, list, c, step.flush); }
    }
  }

  /** A new command's level respects everything it depends on. */
  lemma NewDependency(s: System, step: Step, a: nat)
    requires Inv(s) && Enabled(s, step) && a <= |s.log|
    ensures Respects(Next(s, step), a, |s.log|)
  {
    var s', n := Next(s, step), |s.log|;
    if step.Enqueue? && a < n {
      var q, list := s.queues[step.queue], ListOf(s.log, step.waits);
      var command := Effective(step.command, step.emptyDispatch);
      SubmitLevelBounds(q, list, command);
      if WaitsFor(s'.log, a, n) {
        AwaitedEvent(s, step, a);
      }
      if AfterListBarrier(s'.log, a, n) {
        NewAfterListBarrier(s, step, a);
      }
      if SameQueue(s'.log, a, n) {
        assert Bounded(s, a);
        if AcrossBarrier(s'.log, a, n) {
          NewAcrossBarrier(s, step, a);
        }
      }
    }
  }

  lemma AwaitedEvent(s: System, step: Step, a: nat)
    requires Enabled(s, step) && step.Enqueue? && WaitsFor(Next(s, step).log, a, |s.log|)
    ensures s.log[a].event in ListOf(s.log, step.waits).Elements()
  {
    var i :| 0 <= i < |step.waits.list| && step.waits.list[i] == a;
    assert ListOf(s.log, step.waits).Elements()[i] == s.log[a].event;
  }

  /** A command after a barrier with a wait list lies above the events in that list. */
  lemma NewAfterListBarrier(s: System, step: Step, a: nat)
    requires Inv(s) && Enabled(s, step) && step.Enqueue? && a < |s.log| && AfterListBarrier(Next(s, step).log, a, |s.log|)
    ensures LevelAt(s.log, a) < LevelAt(Next(s, step).log, |s.log|)
  {
    var s', n := Next(s, step), |s.log|;
    var q, list := s.queues[step.queue], ListOf(s.log, step.waits);
    SubmitLevelBounds(q, list, Effective(step.command, step.emptyDispatch));
    var c :| a < c <= n && SameQueue(s'.log, c, n) && IsBarrierFor(s'.log, a, c);
    if c == n {
      AwaitedEvent(s, step, a);
      BarrierSeparatesIff(q, list);
    } else {
      assert SameQueue(s.log, c, c) && IsBarrierFor(s.log, a, c);
      assert AfterListBarrier(s.log, a, c);
      assert Respects(s, a, c) && Bounded(s, c);
    }
  }

  lemma NewAcrossBarrier(s: System, step: Step, a: nat)
    requires Inv(s) && Enabled(s, step) && step.Enqueue? && a < |s.log| && AcrossBarrier(Next(s, step).log, a, |s.log|)
    ensures LevelAt(s.log, a) < LevelAt(Next(s, step).log, |s.log|)
  {
    var s', n := Next(s, step), |s.log|;
    var q, list := s.queues[step.queue], ListOf(s.log, step.waits);
    SubmitLevelBounds(q, list, Effective(step.command, step.emptyDispatch));
    var c :| a < c <= n && SameQueue(s'.log, a, c) && IsBarrier(s'.log, c);
    assert Bounded(s, a);
    if c == n {
      BarrierSeparatesIff(q, list);
    } else {
      assert SameQueue(s.log, a, c) && IsBarrier(s.log, c);
      assert AcrossBarrier(s.log, a, c);
      assert Respects(s, a, c) && Bounded(s, c);
    }
  }

  lemma StepInv(s: System, step: Step)
    requires Inv(s) && Enabled(s, step)
    ensures Inv(Next(s, step))
  {
    var s', n := Next(s, step), |s.log|;
    forall a | 0 <= a < |s'.log| ensures Bounded(s', a) {
      if a < n {
        assert Bounded(s, a);
        if s.log[a].origin.Command? { QueueNeverFalls(s, step, s.log[a].origin.queue); }
      }
    }
    forall a, b | 0 <= a < |s'.log| && 0 <= b < |s'.log| ensures Respects(s', a, b) {
      if b == n {
        NewDependency(s, step, a);
      } else if a < n {
        OldDependency(s, step, a, b);
      }
    }
  }

  lemma {:induction false} RunInv(s: System, run: seq<Step>)
    requires Inv(s) && ValidRun(s, run)
    ensures Inv(After(s, run))
    decreases |run|
  {
    if run != [] {
      StepInv(s, run[0]);
      RunInv(Next(s, run[0]), run[1..]);
    }
  }

  // ----- the main results -----------------------------------------------------------------

  /** A path of direct dependencies. */
  ghost predicate Path(s: System, p: seq<nat>) {
    |p| > 0 && p[0] < |s.log| && (|p| > 1 ==> p[1] < |s.log| && Depends(s, p[0], p[1]) && Path(s, p[1..]))
  }

  lemma {:induction false} LevelsAlongPath(s: System, p: seq<nat>)
    requires Inv(s) && Path(s, p)
    ensures p[|p| - 1] < |s.log| && LevelAt(s.log, p[0]) <= LevelAt(s.log, p[|p| - 1])
    ensures |p| > 1 && IsKernel(s.log, p[|p| - 1]) ==> LevelAt(s.log, p[0]) < LevelAt(s.log, p[|p| - 1])
    decreases |p|
  {
    if |p| > 1 {
      assert Respects(s, p[0], p[1]);
      LevelsAlongPath(s, p[1..]);
    }
  }

  /**
   * Levels are a schedule: in every run, over any mix of in-order and out-of-order queues, markers,
   * barriers and user events, a kernel's level is above that of everything it depends on, through
   * any chain of dependencies. So kernels of one level may run together.
   */
  lemma KernelsRunAfterDependencies(start: System, run: seq<Step>, p: seq<nat>)
    requires Fresh(start) && ValidRun(start, run) && Path(After(start, run), p) && |p| > 1
    ensures p[|p| - 1] < |After(start, run).log|
    ensures IsKernel(After(start, run).log, p[|p| - 1]) ==>
      LevelAt(After(start, run).log, p[0]) < LevelAt(After(start, run).log, p[|p| - 1])
  {
    RunInv(start, run);
    LevelsAlongPath(After(start, run), p);
  }

  /** Whatever lies in between, commands on the two sides of a barrier have strictly ascending levels. */
  lemma BarrierSeparates(start: System, run: seq<Step>, a: nat, bar: nat, b: nat)
    requires Fresh(start) && ValidRun(start, run)
    requires a < bar <= b && SameQueue(After(start, run).log, a, bar) && SameQueue(After(start, run).log, a, b)
    requires IsBarrier(After(start, run).log, bar)
    ensures LevelAt(After(start, run).log, a) < LevelAt(After(start, run).log, b)
  {
    RunInv(start, run);
    assert Respects(After(start, run), a, b);
  }

  /** The kernels of an in-order queue have strictly ascending levels. */
  lemma InOrderKernelsAscend(start: System, run: seq<Step>, a: nat, b: nat)
    requires Fresh(start) && ValidRun(start, run)
    requires InOrder(After(start, run).queues, After(start, run).log, a, b) && IsKernel(After(start, run).log, b)
    ensures LevelAt(After(start, run).log, a) < LevelAt(After(start, run).log, b)
  {
    RunInv(start, run);
    assert Respects(After(start, run), a, b);
  }

  /** From any state on, a queue's own level and task count never fall. */
  lemma {:induction false} QueueLevelNeverFalls(s: System, run: seq<Step>, i: nat)
    requires ValidRun(s, run) && i < |s.queues|
    ensures |After(s, run).queues| == |s.queues|
    ensures After(s, run).queues[i].taskLevel >= s.queues[i].taskLevel
    ensures After(s, run).queues[i].taskCount >= s.queues[i].taskCount
    decreases |run|
  {
    if run != [] {
      QueueNeverFalls(s, run[0], i);
      QueueLevelNeverFalls(Next(s, run[0]), run[1..], i);
    }
  }

  /** A queue's own level bounds every level the queue has issued. */
  lemma QueueLevelBounds(start: System, run: seq<Step>, a: nat)
    requires Fresh(start) && ValidRun(start, run)
    requires a < |After(start, run).log| && After(start, run).log[a].origin.Command?
    ensures After(start, run).log[a].origin.queue < |After(start, run).queues|
    ensures LevelAt(After(start, run).log, a) <= After(start, run).queues[After(start, run).log[a].origin.queue].taskLevel
  {
    RunInv(start, run);
    assert Bounded(After(start, run), a);
  }

  // ----- independent kernels --------------------------------------------------------------

  /** Whatever the step enqueues on queue i is a kernel without a wait list, submitted at the level it asks for. */
  predicate Independent(s: System, step: Step, i: nat)
    requires Enabled(s, step)
  {
    step.Enqueue? && step.queue == i ==>
      step.waits.NoRefs? && step.command in {NdRangeKernel, Transfer} && !step.emptyDispatch
      && step.flush.taskLevel == SubmitLevel(s.queues[i], NoList, step.command)
  }

  predicate IndependentRun(s: System, run: seq<Step>, i: nat)
    requires ValidRun(s, run)
    decreases |run|
  {
    run == [] || (Independent(s, run[0], i) && IndependentRun(Next(s, run[0]), run[1..], i))
  }

  /** Independent kernels of an out-of-order queue all have the level of the queue, which stays as it is. */
  lemma {:induction false} IndependentKernelsShareLevel(s: System, run: seq<Step>, i: nat)
    requires ValidRun(s, run) && i < |s.queues| && s.queues[i].outOfOrder && IndependentRun(s, run, i)
    ensures |After(s, run).queues| == |s.queues| && After(s, run).queues[i].taskLevel == s.queues[i].taskLevel
    ensures |After(s, run).log| >= |s.log| && After(s, run).log[..|s.log|] == s.log
    ensures forall k :: |s.log| <= k < |After(s, run).log| ==>
      (After(s, run).log[k].origin.Command? && After(s, run).log[k].origin.queue == i ==>
        After(s, run).log[k].event.taskLevel == s.queues[i].taskLevel)
    decreases |run|
  {
    if run != [] {
      var next := Next(s, run[0]);
      if run[0].Enqueue? && run[0].queue == i { SubmitLevelIs(s.queues[i], NoList, run[0].command); }
      IndependentKernelsShareLevel(next, run[1..], i);
      assert next.log[..|s.log|] == s.log && |next.log| == |s.log| + 1;
      assert After(s, run).log[|s.log|] == After(s, run).log[..|next.log|][|s.log|];
      assert After(s, run).log[..|s.log|] == After(s, run).log[..|next.log|][..|s.log|];
    }
  }
}
