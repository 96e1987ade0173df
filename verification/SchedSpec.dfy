/**
  The scheduler of one CPU, kernel/src/sys/sched.c with the queues of kernel/src/sys/smp.c, as values: three
  queues of tasks, highest first, each with the place of its iterator. A task never moves, so its queue and
  its position name it.
 */
module SchedSpec {
  const READY := 1
  const RUNNING := 2
  const QUANTUM := 5
  const STACK_BYTES := 0x3000
  const LEVELS := 3

  /** Saved registers; `rest` are those a new task does not set. */
  datatype Context = Context(ip: nat, cs: nat, flags: nat, sp: nat, ss: nat, rest: seq<nat>)

  datatype Rec = Rec(id: nat, priority: nat, pageMap: nat, flags: nat, ctx: Context)

  datatype Place = Place(queue: nat, index: nat)

  datatype Current = Idle | At(place: Place)

  /** its[q] is 0 while the iterator is at the list's head, and k + 1 when it is at task k. */
  datatype Sched = Sched(queues: seq<seq<Rec>>, its: seq<nat>, current: Current, pageMap: nat, nextId: nat)

  // ----- The state -----

  predicate IsTask(s: Sched, p: Place) {
    p.queue < |s.queues| && p.index < |s.queues[p.queue]|
  }

  function TaskOf(s: Sched, p: Place): Rec
    requires IsTask(s, p)
  {
    s.queues[p.queue][p.index]
  }

  /** Exactly the current task is running, all others are ready, and each iterator is on its own queue. */
  ghost predicate SchedOk(s: Sched) {
    && |s.queues| == LEVELS && |s.its| == LEVELS
    && (forall q :: 0 <= q < LEVELS ==> s.its[q] <= |s.queues[q]|)
    && (s.current.At? ==> IsTask(s, s.current.place))
    && (forall p :: IsTask(s, p) ==> TaskOf(s, p).flags == if s.current == At(p) then RUNNING else READY)
  }

  /** KeSmpCreateTaskQueue: three empty queues. */
  function Empty(pageMap: nat): Sched { Sched([[], [], []], [0, 0, 0], Idle, pageMap, 0) }

  lemma EmptyOk(pageMap: nat)
    ensures SchedOk(Empty(pageMap)) && forall p :: !IsTask(Empty(pageMap), p)
  {}

  // ----- KxCreateTask -----

  /** KxGetQueueFromPriority; any other number means the low queue. */
  function QueueOf(priority: nat): (q: nat)
    ensures q < LEVELS
  {
    if priority == 3 then 0 else if priority == 2 then 1 else 2
  }

  function NewContext(entry: nat, stack: nat, rest: seq<nat>): Context {
    Context(entry, 0x08, 0x202, stack + STACK_BYTES, 0x10, rest)
  }

  /** A new ready task at the end of its queue. */
  function Create(s: Sched, priority: nat, pageMap: nat, ctx: Context): Sched
    requires |s.queues| == LEVELS
  {
    var q := QueueOf(priority);
    s.(queues := s.queues[q := s.queues[q] + [Rec(s.nextId, priority, pageMap, READY, ctx)]], nextId := s.nextId + 1)
  }

  // ----- KxSchedule -----

  /** The highest queue with a task, or LEVELS. */
  function Highest(s: Sched, q: nat): (h: nat)
    requires q <= |s.queues| == LEVELS
    ensures q <= h <= LEVELS && (h < LEVELS ==> s.queues[h] != [])
    ensures forall j :: q <= j < h ==> s.queues[j] == []
    decreases LEVELS - q
  {
    if q == LEVELS || s.queues[q] != [] then q else Highest(s, q + 1)
  }

  /** The iterator's next position, past the head. */
  function NextPosition(it: nat, n: nat): (k: nat)
    requires n > 0 && it <= n
    ensures 1 <= k <= n
  {
    if it + 1 > n then 1 else it + 1
  }

  function Updated(s: Sched, p: Place, r: Rec): Sched
    requires IsTask(s, p)
  {
    s.(queues := s.queues[p.queue := s.queues[p.queue][p.index := r]])
  }

  /** The interrupted task's registers are saved, and it is ready again. */
  function Saved(s: Sched, ctx: Context): Sched {
    if s.current.At? && IsTask(s, s.current.place) then
      var r := TaskOf(s, s.current.place);
      Updated(s, s.current.place, r.(ctx := ctx, flags := if r.flags == RUNNING then READY else r.flags))
    else s
  }

  function Chosen(s: Sched): Current
    requires SchedOk(s)
  {
    var h := Highest(s, 0);
    if h == LEVELS then Idle else At(Place(h, NextPosition(s.its[h], |s.queues[h]|) - 1))
  }

  /** The task at position k (from 1) of queue h runs, and the queue's iterator stays on it. */
  function Dispatched(s: Sched, h: nat, k: nat): Sched
    requires h < |s.queues| && h < |s.its| && 1 <= k <= |s.queues[h]|
  {
    var p := Place(h, k - 1);
    Updated(s, p, TaskOf(s, p).(flags := RUNNING)).(its := s.its[h := k], current := At(p),
        pageMap := TaskOf(s, p).pageMap)
  }

  lemma DispatchedCurrent(s: Sched, h: nat, k: nat)
    requires h < |s.queues| && h < |s.its| && 1 <= k <= |s.queues[h]|
    ensures IsTask(s, Place(h, k - 1))
    ensures var s', p := Dispatched(s, h, k), Place(h, k - 1);
      s'.current == At(p) && s'.pageMap == TaskOf(s, p).pageMap
  {}

  lemma DispatchedTasks(s: Sched, h: nat, k: nat, p: Place)
    requires h < |s.queues| && h < |s.its| && 1 <= k <= |s.queues[h]|
    ensures var s' := Dispatched(s, h, k);
      && (IsTask(s', p) <==> IsTask(s, p)) && |s'.queues| == |s.queues| && s'.its == s.its[h := k] &&
          s'.nextId == s.nextId
      && (forall q :: 0 <= q < |s.queues| ==> |s'.queues[q]| == |s.queues[q]|)
      && (IsTask(s, p) ==> TaskOf(s', p) == if p == Place(h, k - 1) then TaskOf(s, p).(flags := RUNNING)
          else TaskOf(s, p))
  {
    var c := Place(h, k - 1);
    UpdatedTasks(s, c, TaskOf(s, c).(flags := RUNNING), p);
  }

  /** A timer interrupt that found the registers ctx. */
  function Tick(s: Sched, ctx: Context): (s': Sched)
    requires SchedOk(s)
  {
    var s1, h := Saved(s, ctx), Highest(s, 0);
    if h == LEVELS then s1 else Dispatched(s1, h, NextPosition(s.its[h], |s.queues[h]|))
  }

  /** What the interrupt returns to: the chosen task's saved registers, or the interrupted ones when idle. */
  function Resumed(s: Sched, ctx: Context): Context
    requires SchedOk(s)
  {
    var c := Chosen(s);
    if c.At? then TaskOf(Saved(s, ctx), c.place).ctx else ctx
  }

  /** The time slice: five units per priority level, twenty-five when there is nothing to run. */
  function Interval(s: Sched): nat
    requires SchedOk(s)
  {
    if Chosen(s).At? then QUANTUM * TaskOf(s, Chosen(s).place).priority else QUANTUM * 5
  }

  lemma UpdatedTasks(s: Sched, p: Place, r: Rec, p': Place)
    requires IsTask(s, p)
    ensures IsTask(Updated(s, p, r), p') <==> IsTask(s, p')
    ensures IsTask(s, p') ==> TaskOf(Updated(s, p, r), p') == if p' == p then r else TaskOf(s, p')
    ensures |Updated(s, p, r).queues| == |s.queues|
    ensures forall q :: 0 <= q < |s.queues| ==> |Updated(s, p, r).queues[q]| == |s.queues[q]|
  {}

  lemma SavedTasks(s: Sched, ctx: Context, p: Place)
    requires SchedOk(s)
    ensures |Saved(s, ctx).queues| == LEVELS && Saved(s, ctx).its == s.its
    ensures forall q :: 0 <= q < LEVELS ==> |Saved(s, ctx).queues[q]| == |s.queues[q]|
    ensures IsTask(Saved(s, ctx), p) <==> IsTask(s, p)
    ensures IsTask(s, p) && s.current == At(p) ==> TaskOf(Saved(s, ctx), p) == TaskOf(s, p).(ctx := ctx, flags := READY)
    ensures IsTask(s, p) && s.current != At(p) ==> TaskOf(Saved(s, ctx), p) == TaskOf(s, p)
  {
    if s.current.At? {
      var r := TaskOf(s, s.current.place);
      UpdatedTasks(s, s.current.place, r.(ctx := ctx, flags := READY), p);
    }
  }

  /** Once the interrupted task is saved, every task is ready. */
  lemma SavedReady(s: Sched, ctx: Context)
    requires SchedOk(s)
    ensures var s1 := Saved(s, ctx);
      && |s1.queues| == LEVELS && s1.its == s.its && s1.pageMap == s.pageMap && s1.nextId == s.nextId &&
          s1.current == s.current
      && (forall p :: IsTask(s1, p) ==> TaskOf(s1, p).flags == READY)
      && (forall q :: 0 <= q < LEVELS ==> |s1.queues[q]| == |s.queues[q]|)
      && Highest(s1, 0) == Highest(s, 0)
  {
    var s1 := Saved(s, ctx);
    SavedTasks(s, ctx, Place(0, 0));
    forall p | IsTask(s1, p) ensures TaskOf(s1, p).flags == READY { SavedTasks(s, ctx, p); }
    SameLengths(s, s1, 0);
  }

  lemma {:induction false} SameLengths(s: Sched, s': Sched, q: nat)
    requires |s.queues| == LEVELS && |s'.queues| == LEVELS && q <= LEVELS
    requires forall q :: 0 <= q < LEVELS ==> |s'.queues[q]| == |s.queues[q]|
    ensures Highest(s', q) == Highest(s, q)
    decreases LEVELS - q
  {
    if q < LEVELS { SameLengths(s, s', q + 1); }
  }

  /** The meaning of a tick, task by task. */
  lemma TickTasks(s: Sched, ctx: Context, p: Place)
    requires SchedOk(s)
    ensures var s', c := Tick(s, ctx), Chosen(s);
      && (IsTask(s', p) <==> IsTask(s, p))
      && (IsTask(s, p) ==> TaskOf(s', p).id == TaskOf(s, p).id && TaskOf(s', p).priority == TaskOf(s, p).priority
                           && TaskOf(s', p).pageMap == TaskOf(s, p).pageMap)
      && (IsTask(s, p) ==> TaskOf(s', p).ctx == if s.current == At(p) then ctx else TaskOf(s, p).ctx)
      && (IsTask(s, p) ==> TaskOf(s', p).flags == if c == At(p) then RUNNING else READY)
  {
    SavedTasks(s, ctx, p);
    var s1, h := Saved(s, ctx), Highest(s, 0);
    if h < LEVELS {
      DispatchedTasks(s1, h, NextPosition(s.its[h], |s.queues[h]|), p);
    } else {
      assert !IsTask(s, p);
    }
  }

  /** A tick in terms of the task dispatched. */
  lemma TickDispatches(s: Sched, ctx: Context)
    requires SchedOk(s)
    ensures var s1, h := Saved(s, ctx), Highest(s, 0);
      && |s1.queues| == LEVELS && |s1.its| == LEVELS && s1.its == s.its && |s.its| == LEVELS
      && (h == LEVELS ==> Tick(s, ctx) == s1 && Resumed(s, ctx) == ctx && Interval(s) == QUANTUM * 5)
      && (h < LEVELS ==>
            var n := |s.queues[h]|;
            && s.its[h] <= n && 0 < n == |s1.queues[h]|
            && var k := NextPosition(s.its[h], n);
               && Tick(s, ctx) == Dispatched(s1, h, k) && IsTask(s1, Place(h, k - 1))
               && Resumed(s, ctx) == TaskOf(s1, Place(h, k - 1)).ctx
               && Interval(s) == QUANTUM * TaskOf(s1, Place(h, k - 1)).priority)
  {
    var h := Highest(s, 0);
    SavedTasks(s, ctx, Place(h, if h < LEVELS then NextPosition(s.its[h], |s.queues[h]|) - 1 else 0));
  }

  lemma TickOk(s: Sched, ctx: Context)
    requires SchedOk(s)
    ensures var s' := Tick(s, ctx);
      && SchedOk(s') && s'.current == Chosen(s) && s'.nextId == s.nextId
      && (forall q :: 0 <= q < LEVELS ==> |s'.queues[q]| == |s.queues[q]|)
      && (forall q :: 0 <= q < LEVELS ==>
           s'.its[q] == if q == Highest(s, 0) then NextPosition(s.its[q], |s.queues[q]|) else s.its[q])
  {
    var s', h := Tick(s, ctx), Highest(s, 0);
    SavedTasks(s, ctx, Place(0, 0));
    if h < LEVELS {
      DispatchedTasks(Saved(s, ctx), h, NextPosition(s.its[h], |s.queues[h]|), Place(0, 0));
    } else {
      NoTasks(s);
    }
    forall p | IsTask(s', p) ensures TaskOf(s', p).flags == if s'.current == At(p) then RUNNING else READY {
      TickTasks(s, ctx, p);
    }
  }

  lemma NoTasks(s: Sched)
    requires SchedOk(s) && Highest(s, 0) == LEVELS
    ensures s.current.Idle? && forall p :: !IsTask(s, p)
  {}

  lemma CreateOk(s: Sched, priority: nat, pageMap: nat, ctx: Context)
    requires SchedOk(s)
    ensures SchedOk(Create(s, priority, pageMap, ctx))
    ensures var s', q := Create(s, priority, pageMap, ctx), QueueOf(priority);
      forall p :: IsTask(s', p) <==> IsTask(s, p) || p == Place(q, |s.queues[q]|)
    ensures forall p :: IsTask(s, p) ==> TaskOf(Create(s, priority, pageMap, ctx), p) == TaskOf(s, p)
  {}

  lemma CurrentIsTask(s: Sched)
    requires SchedOk(s)
    ensures |s.queues| == LEVELS && (s.current.At? ==> IsTask(s, s.current.place))
  {}

  lemma CreatedQueue(s: Sched, priority: nat, pageMap: nat, ctx: Context)
    requires SchedOk(s)
    ensures var s', q := Create(s, priority, pageMap, ctx), QueueOf(priority);
      && |s'.queues| == LEVELS && |s.queues| == LEVELS && |s.its| == LEVELS && s'.its == s.its
      && s'.current == s.current && s'.pageMap == s.pageMap && s'.nextId == s.nextId + 1
      && (forall r :: 0 <= r < LEVELS ==> |s'.queues[r]| == |s.queues[r]| + if r == q then 1 else 0)
      && TaskOf(s', Place(q, |s.queues[q]|)) == Rec(s.nextId, priority, pageMap, READY, ctx)
  {}

  // ----- Runs -----

  datatype Event = New(priority: nat, pageMap: nat, initial: Context) | Timer(found: Context)

  function Apply(s: Sched, e: Event): Sched
    requires SchedOk(s)
  {
    match e
    case New(priority, pageMap, initial) => Create(s, priority, pageMap, initial)
    case Timer(found) => Tick(s, found)
  }

  lemma ApplyOk(s: Sched, e: Event)
    requires SchedOk(s)
    ensures SchedOk(Apply(s, e))
  {
    match e
    case New(priority, pageMap, initial) => CreateOk(s, priority, pageMap, initial);
    case Timer(found) => TickOk(s, found);
  }

  /** Every interleaving of task creation and timer interrupts keeps the scheduler's invariant. */
  ghost function RunAll(s: Sched, es: seq<Event>): (s': Sched)
    requires SchedOk(s)
    ensures SchedOk(s')
  {
    if es == [] then s
    else
      var before := RunAll(s, es[..|es| - 1]);
      ApplyOk(before, es[|es| - 1]);
      Apply(before, es[|es| - 1])
  }

  /** The registers a task should resume with: those found when it was last interrupted, or its first ones. */
  ghost function LastContext(s: Sched, es: seq<Event>, p: Place, none: Context): Context
    requires SchedOk(s)
  {
    if es == [] then (if IsTask(s, p) then TaskOf(s, p).ctx else none)
    else
      var before, e := RunAll(s, es[..|es| - 1]), es[|es| - 1];
      if e.Timer? && before.current == At(p) then e.found
      else if e.New? && p == Place(QueueOf(e.priority), |before.queues[QueueOf(e.priority)]|) then e.initial
      else LastContext(s, es[..|es| - 1], p, none)
  }

  /** Over every run each task keeps exactly the registers it was last interrupted with. */
  lemma {:induction false} ContextKept(s: Sched, es: seq<Event>, p: Place, none: Context)
    requires SchedOk(s) && IsTask(RunAll(s, es), p)
    ensures TaskOf(RunAll(s, es), p).ctx == LastContext(s, es, p, none)
  {
    if es != [] {
      var init, e := es[..|es| - 1], es[|es| - 1];
      var before := RunAll(s, init);
      match e
      case New(priority, pageMap, initial) =>
        CreateOk(before, priority, pageMap, initial);
        if IsTask(before, p) { ContextKept(s, init, p, none); }
      case Timer(found) =>
        TickTasks(before, found, p);
        ContextKept(s, init, p, none);
    }
  }

  /** What an interrupt resumes is the chosen task's last registers: the ones just found, if it goes on. */
  lemma ResumesLast(s: Sched, es: seq<Event>, ctx: Context)
    requires SchedOk(s) && Chosen(RunAll(s, es)).At?
    ensures var now := RunAll(s, es);
      Resumed(now, ctx) == if now.current == Chosen(now) then ctx else LastContext(s, es, Chosen(now).place, ctx)
  {
    var now := RunAll(s, es);
    var p := Chosen(now).place;
    SavedTasks(now, ctx, p);
    ContextKept(s, es, p, ctx);
  }

  // ----- A new task's first run -----

  /** No event takes a task away. */
  lemma {:induction false} StillTask(s: Sched, es: seq<Event>, p: Place)
    requires SchedOk(s) && IsTask(s, p)
    ensures IsTask(RunAll(s, es), p)
  {
    if es != [] {
      StillTask(s, es[..|es| - 1], p);
      var before := RunAll(s, es[..|es| - 1]);
      match es[|es| - 1]
      case New(priority, pageMap, initial) => CreateOk(before, priority, pageMap, initial);
      case Timer(found) => TickTasks(before, found, p);
    }
  }

  /** A task that no interrupt has found running has the registers it started with. */
  lemma {:induction false} NotYetRun(s: Sched, es: seq<Event>, p: Place)
    requires SchedOk(s) && IsTask(s, p)
    requires forall i :: 0 <= i < |es| ==> RunAll(s, es[..i]).current != At(p)
    ensures IsTask(RunAll(s, es), p) && TaskOf(RunAll(s, es), p).ctx == TaskOf(s, p).ctx
  {
    StillTask(s, es, p);
    if es != [] {
      var init := es[..|es| - 1];
      forall i | 0 <= i < |init| ensures RunAll(s, init[..i]).current != At(p) { assert init[..i] == es[..i]; }
      NotYetRun(s, init, p);
      var before := RunAll(s, init);
      match es[|es| - 1]
      case New(priority, pageMap, initial) => CreateOk(before, priority, pageMap, initial);
      case Timer(found) => TickTasks(before, found, p);
    }
  }

  /** A task's first turn is with the registers it started with. */
  lemma FirstTurn(s: Sched, es: seq<Event>, found: Context, p: Place)
    requires SchedOk(s) && IsTask(s, p)
    requires forall i :: 0 <= i <= |es| ==> RunAll(s, es[..i]).current != At(p)
    requires Chosen(RunAll(s, es)) == At(p)
    ensures Resumed(RunAll(s, es), found) == TaskOf(s, p).ctx
  {
    hide SchedOk, RunAll, Chosen, IsTask;
    NotYetRun(s, es, p);
    assert es[..|es|] == es;
    SavedTasks(RunAll(s, es), found, p);
  }

  /** A task's code and stack segments are the kernel's, and its stack pointer is at the end of its three pages. */
  lemma NewTask(s: Sched, priority: nat, entry: nat, stack: nat, pageMap: nat, rest: seq<nat>, p: Place)
    requires SchedOk(s) && !IsTask(s, p)
    requires IsTask(Create(s, priority, pageMap, NewContext(entry, stack, rest)), p)
    ensures TaskOf(Create(s, priority, pageMap, NewContext(entry, stack, rest)), p).ctx
         == Context(entry, 0x08, 0x202, stack + 3 * 0x1000, 0x10, rest)
  {
    var ctx := NewContext(entry, stack, rest);
    CreateOk(s, priority, pageMap, ctx);
    CreatedQueue(s, priority, pageMap, ctx);
  }

  /**
    Whatever happens between its creation and its first turn, a task first resumes at its entry, in the kernel's code
    and stack segments, with interrupts on and its stack pointer at the end of its three pages.
   */
  lemma FirstRun(s: Sched, priority: nat, entry: nat, stack: nat, pageMap: nat, rest: seq<nat>, es: seq<Event>,
                 found: Context, p: Place)
    requires SchedOk(s) && !IsTask(s, p) && SchedOk(Create(s, priority, pageMap, NewContext(entry, stack, rest)))
    requires IsTask(Create(s, priority, pageMap, NewContext(entry, stack, rest)), p)
    requires var s' := Create(s, priority, pageMap, NewContext(entry, stack, rest));
      && (forall i :: 0 <= i <= |es| ==> RunAll(s', es[..i]).current != At(p))
      && Chosen(RunAll(s', es)) == At(p)
    ensures var s' := Create(s, priority, pageMap, NewContext(entry, stack, rest));
      Resumed(RunAll(s', es), found) == Context(entry, 0x08, 0x202, stack + 3 * 0x1000, 0x10, rest)
  {
    hide SchedOk, RunAll, Chosen, Create, IsTask, Resumed, NewContext;
    QueueCount(s, s);
    NewTask(s, priority, entry, stack, pageMap, rest, p);
    FirstTurn(Create(s, priority, pageMap, NewContext(entry, stack, rest)), es, found, p);
  }

  // ----- Priorities -----

  /** Tasks of priority 3 are on the first queue, those of priority 2 on the second, all others on the third. */
  ghost predicate Ranked(s: Sched) {
    && |s.queues| == LEVELS
    && forall p :: IsTask(s, p) ==>
         && (TaskOf(s, p).priority == 3 <==> p.queue == 0)
         && (TaskOf(s, p).priority == 2 <==> p.queue == 1)
  }

  lemma {:induction false} RunRanked(s: Sched, es: seq<Event>)
    requires SchedOk(s) && Ranked(s)
    ensures Ranked(RunAll(s, es))
  {
    hide SchedOk, Tick, Create;
    if es != [] {
      RunRanked(s, es[..|es| - 1]);
      var before, now := RunAll(s, es[..|es| - 1]), RunAll(s, es);
      QueueCount(before, now);
      forall p | IsTask(now, p)
        ensures TaskOf(now, p).priority == 3 <==> p.queue == 0
        ensures TaskOf(now, p).priority == 2 <==> p.queue == 1
      {
        match es[|es| - 1]
        case New(priority, pageMap, initial) =>
          CreateOk(before, priority, pageMap, initial);
          CreatedQueue(before, priority, pageMap, initial);
        case Timer(found) => TickTasks(before, found, p);
      }
    }
  }

  /** Whether every task made has a priority of kernel/src/include/sched.h. */
  predicate KnownPriorities(es: seq<Event>) {
    forall i :: 0 <= i < |es| && es[i].New? ==> 1 <= es[i].priority <= 3
  }

  lemma {:induction false} PrioritiesKnown(s: Sched, es: seq<Event>, p: Place)
    requires SchedOk(s) && (forall p :: !IsTask(s, p)) && KnownPriorities(es) && IsTask(RunAll(s, es), p)
    ensures 1 <= TaskOf(RunAll(s, es), p).priority <= 3
  {
    hide SchedOk, Tick, Create;
    if es != [] {
      var before := RunAll(s, es[..|es| - 1]);
      if IsTask(before, p) { PrioritiesKnown(s, es[..|es| - 1], p); }
      match es[|es| - 1]
      case New(priority, pageMap, initial) =>
        CreateOk(before, priority, pageMap, initial);
        CreatedQueue(before, priority, pageMap, initial);
      case Timer(found) => TickTasks(before, found, p);
    }
  }

  /** The highest queue with a task is no lower than any task's. */
  lemma ChosenQueue(s: Sched, p: Place)
    requires SchedOk(s) && IsTask(s, p)
    ensures Chosen(s).At? && IsTask(s, Chosen(s).place) && Chosen(s).place.queue <= p.queue
  {}

  /**
    Over every run from the empty queues, the next interrupt runs a task when there is one: one of priority 3 if any
    task has it, otherwise one of priority 2 if any task has that; and where all priorities are 1 to 3, no task has a
    higher one than the task it runs.
   */
  lemma HighestPriorityRuns(s: Sched, es: seq<Event>, p: Place)
    requires SchedOk(s) && (forall p :: !IsTask(s, p)) && IsTask(RunAll(s, es), p)
    ensures var now := RunAll(s, es);
      && Chosen(now).At? && IsTask(now, Chosen(now).place)
      && var chosen, priority := TaskOf(now, Chosen(now).place).priority, TaskOf(now, p).priority;
         && (priority == 3 ==> chosen == 3) && (priority == 2 ==> chosen == 2 || chosen == 3)
         && (KnownPriorities(es) ==> priority <= chosen)
  {
    hide SchedOk, Chosen, RunAll;
    QueueCount(s, s);
    RunRanked(s, es);
    var now := RunAll(s, es);
    ChosenQueue(now, p);
    if KnownPriorities(es) {
      PrioritiesKnown(s, es, p);
      PrioritiesKnown(s, es, Chosen(now).place);
    }
  }

  /**
    The interrupt makes the chosen task current and its page map too, for 5, 10 or 15 units at priority 1, 2 or 3;
    with nothing to run it comes again after 25, with the same page map.
   */
  lemma TickSlice(s: Sched, ctx: Context)
    requires SchedOk(s)
    ensures var s', c := Tick(s, ctx), Chosen(s);
      && s'.current == c
      && (c.At? ==> IsTask(s, c.place))
      && (c.At? ==>
            var t := TaskOf(s, c.place);
            && s'.pageMap == t.pageMap
            && (t.priority == 1 ==> Interval(s) == 5) && (t.priority == 2 ==> Interval(s) == 10)
            && (t.priority == 3 ==> Interval(s) == 15))
      && (c.Idle? ==> s'.pageMap == s.pageMap && Interval(s) == 25 && forall p :: !IsTask(s, p))
  {
    TickOk(s, ctx);
    SavedReady(s, ctx);
    var s1, h := Saved(s, ctx), Highest(s, 0);
    if h < LEVELS {
      var k := NextPosition(s.its[h], |s.queues[h]|);
      SavedTasks(s, ctx, Place(h, k - 1));
      DispatchedCurrent(s1, h, k);
    } else {
      NoTasks(s);
    }
  }

  // ----- Fairness -----

  function Timers(ctxs: seq<Context>): seq<Event> {
    seq(|ctxs|, i requires 0 <= i < |ctxs| => Timer(ctxs[i]))
  }

  lemma TimersPrefix(ctxs: seq<Context>)
    requires ctxs != []
    ensures Timers(ctxs)[..|ctxs| - 1] == Timers(ctxs[..|ctxs| - 1]) &&
        Timers(ctxs)[|ctxs| - 1] == Timer(ctxs[|ctxs| - 1])
  {}

  /** The index of the task that runs after j others, in a ring of n with the iterator at `it`. */
  function Ahead(it: nat, j: nat, n: nat): (k: nat)
    requires it <= n && n > 0
    ensures k < n
  {
    if j == 0 then (if it == n then 0 else it)
    else
      var k := Ahead(it, j - 1, n);
      if k + 1 == n then 0 else k + 1
  }

  /** Going around at most once, the index is the distance from the iterator, wrapped at the end. */
  lemma {:induction false} AheadWraps(it: nat, j: nat, n: nat)
    requires it <= n && n > 0 && j < n
    ensures Ahead(it, j, n) == if it + j < n then it + j else it + j - n
  {
    if j > 0 { AheadWraps(it, j - 1, n); }
  }

  /** Without new tasks, j interrupts advance the highest queue's iterator j places and touch no other. */
  lemma {:induction false} AfterTicks(s: Sched, ctxs: seq<Context>)
    requires SchedOk(s) && Highest(s, 0) < LEVELS
    ensures var s', h := RunAll(s, Timers(ctxs)), Highest(s, 0);
      && Highest(s', 0) == h && (forall q :: 0 <= q < LEVELS ==> |s'.queues[q]| == |s.queues[q]|)
      && (forall q :: 0 <= q < LEVELS && q != h ==> s'.its[q] == s.its[q])
      && (if s'.its[h] == |s.queues[h]| then 0 else s'.its[h]) == Ahead(s.its[h], |ctxs|, |s.queues[h]|)
      && (ctxs != [] ==> s'.current == At(Place(h, Ahead(s.its[h], |ctxs| - 1, |s.queues[h]|))))
  {
    hide SchedOk, Highest, NextPosition, Ahead, Tick;
    IteratorsOnRings(s);
    if ctxs != [] {
      var init, found := ctxs[..|ctxs| - 1], ctxs[|ctxs| - 1];
      AfterTicks(s, init);
      TimersPrefix(ctxs);
      var before, h := RunAll(s, Timers(init)), Highest(s, 0);
      TickOk(before, found);
      QueueCount(before, Tick(before, found));
      SameLengths(before, Tick(before, found), 0);
      PositionAhead(s.its[h], before.its[h], |init|, |s.queues[h]|);
    } else {
      NoneAhead(s, Highest(s, 0));
    }
  }

  lemma QueueCount(s: Sched, s': Sched)
    requires SchedOk(s) && SchedOk(s')
    ensures |s.queues| == LEVELS && |s'.queues| == LEVELS && |s.its| == LEVELS && |s'.its| == LEVELS
    ensures forall q :: 0 <= q < LEVELS ==> s.its[q] <= |s.queues[q]|
  {}

  lemma NoneAhead(s: Sched, h: nat)
    requires SchedOk(s) && h == Highest(s, 0) < LEVELS
    ensures (if s.its[h] == |s.queues[h]| then 0 else s.its[h]) == Ahead(s.its[h], 0, |s.queues[h]|)
  {}

  /** The task at the iterator's next position is the one that many places ahead, and the one after it is next. */
  lemma PositionAhead(start: nat, it: nat, j: nat, n: nat)
    requires start <= n && it <= n && n > 0 && (if it == n then 0 else it) == Ahead(start, j, n)
    ensures NextPosition(it, n) - 1 == Ahead(start, j, n)
    ensures (if NextPosition(it, n) == n then 0 else NextPosition(it, n)) == Ahead(start, j + 1, n)
  {}

  /**
    Fairness: as many consecutive interrupts as the highest queue has tasks run each of its tasks exactly
    once, in list order from the iterator, and run no task of another queue.
   */
  lemma Fairness(s: Sched, ctxs: seq<Context>, k: nat)
    requires SchedOk(s) && Highest(s, 0) < LEVELS
    requires |ctxs| == |s.queues[Highest(s, 0)]| && k < |ctxs|
    ensures var h, n := Highest(s, 0), |ctxs|;
      && (forall j :: 0 < j <= n ==> RunAll(s, Timers(ctxs[..j])).current == At(Place(h, Ahead(s.its[h], j - 1, n))))
      && (exists j :: 0 < j <= n && RunAll(s, Timers(ctxs[..j])).current == At(Place(h, k)))
      && (forall i, j :: 0 < i < j <= n ==>
            RunAll(s, Timers(ctxs[..i])).current != RunAll(s, Timers(ctxs[..j])).current)
  {
    hide RunAll, Timers, Ahead, SchedOk, Highest;
    IteratorsOnRings(s);
    var h, n, it := Highest(s, 0), |ctxs|, s.its[Highest(s, 0)];
    forall j | 0 < j <= n ensures RunAll(s, Timers(ctxs[..j])).current == At(Place(h, Ahead(it, j - 1, n))) {
      AfterTicks(s, ctxs[..j]);
    }
    var d := EachOnce(it, n, k);
    assert RunAll(s, Timers(ctxs[..d + 1])).current == At(Place(h, k));
    forall i, j | 0 < i < j <= n
      ensures RunAll(s, Timers(ctxs[..i])).current != RunAll(s, Timers(ctxs[..j])).current
    {
      assert Ahead(it, i - 1, n) != Ahead(it, j - 1, n);
    }
  }

  /** Going once around the ring passes each place once. */
  lemma EachOnce(it: nat, n: nat, k: nat) returns (d: nat)
    requires it <= n && k < n
    ensures d < n && Ahead(it, d, n) == k
    ensures forall i, j :: 0 <= i < j < n ==> Ahead(it, i, n) != Ahead(it, j, n)
  {
    hide Ahead;
    d := if it <= k then k - it else k + n - it;
    AheadWraps(it, d, n);
    forall i, j | 0 <= i < j < n ensures Ahead(it, i, n) != Ahead(it, j, n) {
      AheadWraps(it, i, n);
      AheadWraps(it, j, n);
    }
  }

  lemma IteratorsOnRings(s: Sched)
    requires SchedOk(s)
    ensures |s.queues| == LEVELS && |s.its| == LEVELS && forall h :: 0 <= h < LEVELS ==> s.its[h] <= |s.queues[h]|
  {}
}
