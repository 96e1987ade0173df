/**
  The scheduler's objects, kernel/src/sys/sched.c, kernel/src/lib/list.c and kernel/src/sys/smp.c:21-44: tasks
  on circular lists, a queue with a persistent iterator for each list, and the CPU that runs them.
 */
module Sched {
  import opened SchedSpec

  class Task {
    const id: nat
    const priority: nat
    const pageMap: nat
    ghost const place: Place
    var flags: nat
    var ctx: Context

    constructor (id: nat, priority: nat, pageMap: nat, ctx: Context, ghost place: Place)
      ensures Is(Rec(id, priority, pageMap, READY, ctx), place)
    {
      this.id, this.priority, this.pageMap, this.place := id, priority, pageMap, place;
      this.ctx, this.flags := ctx, READY;
    }

    ghost predicate Is(r: Rec, p: Place)
      reads this
    {
      r == Rec(id, priority, pageMap, flags, ctx) && place == p
    }
  }

  class ListItem {
    const pData: Task?
    var pNext: ListItem?
    var pPrev: ListItem?

    constructor (data: Task?)
      ensures pData == data
    {
      pData, pNext, pPrev := data, null, null;
    }
  }

  class List {
    const pHead: ListItem
    var count: nat
    ghost var nodes: seq<ListItem>  // the head, then the items in order

    ghost predicate LinksAt(i: nat)
      requires i < |nodes|
      reads this, nodes
    {
      && nodes[i].pNext == nodes[if i + 1 == |nodes| then 0 else i + 1]
      && nodes[i].pPrev == nodes[if i == 0 then |nodes| - 1 else i - 1]
    }

    /** A circular doubly linked list with its head as sentinel. */
    ghost predicate Linked()
      reads this, nodes
    {
      && |nodes| == count + 1 && nodes[0] == pHead
      && (forall i, j :: 0 <= i < j < |nodes| ==> nodes[i] != nodes[j])
      && (forall i :: 0 <= i < |nodes| ==> LinksAt(i))
    }

    /** ListCreate */
    constructor ()
      ensures Linked() && nodes == [pHead] && fresh(pHead) && count == 0
    {
      var h := new ListItem(null);
      h.pNext, h.pPrev := h, h;
      pHead, count, nodes := h, 0, [h];
    }

    /** ListAppend: a new item before the head. */
    method Append(data: Task) returns (ghost item: ListItem)
      requires Linked()
      modifies this`nodes, this`count, nodes`pNext, nodes`pPrev
      ensures Linked() && nodes == old(nodes) + [item] && count == old(count) + 1
      ensures fresh(item) && item.pData == data
    {
      ghost var ns := nodes;
      assert LinksAt(0);
      assert LinksAt(|ns| - 1);
      var pItem := new ListItem(data);
      pItem.pNext := pHead;
      pItem.pPrev := pHead.pPrev;
      pHead.pPrev.pNext := pItem;
      pHead.pPrev := pItem;
      count := count + 1;
      nodes := ns + [pItem];
      item := pItem;
      forall j | 0 <= j < |nodes| ensures LinksAt(j) {
        if j < |ns| { assert nodes[j] == ns[j] && old(LinksAt(j)); }
      }
    }
  }

  class TaskQueue {
    var hasRunnableTask: bool
    const priority: nat
    const tasks: List
    var pIterator: ListItem
    const pNext: TaskQueue?

    constructor (priority: nat, pNext: TaskQueue?)
      ensures this.priority == priority && this.pNext == pNext && !hasRunnableTask && pIterator == tasks.pHead
      ensures fresh(tasks) && tasks.Linked() && tasks.nodes == [tasks.pHead] && fresh(tasks.pHead) && tasks.count == 0
    {
      var list := new List();
      tasks := list;
      this.priority, this.pNext := priority, pNext;
      hasRunnableTask := false;
      pIterator := list.pHead;
    }
  }

  ghost predicate EmptyQueue(queue: TaskQueue, links: set<object>)
    reads queue, links
  {
    && queue !in links && queue.tasks in links && queue.tasks.pHead in links
    && queue.tasks.nodes == [queue.tasks.pHead] && queue.tasks.count == 0 && queue.tasks.Linked()
    && !queue.hasRunnableTask && queue.pIterator == queue.tasks.pHead
  }

  /** The allocations of KeSmpCreateTaskQueue: three empty queues, chained from high to low. */
  method CreateTaskQueues() returns (high: TaskQueue, ghost queues: seq<TaskQueue>, ghost links: set<object>)
    ensures |queues| == LEVELS && queues[0] == high && fresh(links) && fresh(queues)
    ensures queues[0].pNext == queues[1] && queues[1].pNext == queues[2] && queues[2].pNext == null
    ensures queues[0].priority == 3 && queues[1].priority == 2 && queues[2].priority == 1
    ensures forall q :: 0 <= q < LEVELS ==> EmptyQueue(queues[q], links)
    ensures forall q, r :: 0 <= q < r < LEVELS ==>
        queues[q] != queues[r] && queues[q].tasks != queues[r].tasks && queues[q].tasks.pHead != queues[r].tasks.pHead
  {
    hide List.Linked;
    var low := new TaskQueue(1, null);
    links := {low.tasks, low.tasks.pHead};
    assert EmptyQueue(low, links);
    ghost var links1 := links;
    var med := new TaskQueue(2, low);
    links := links + {med.tasks, med.tasks.pHead};
    ghost var links2 := links;
    high := new TaskQueue(3, med);
    links := links + {high.tasks, high.tasks.pHead};
    queues := [high, med, low];
  }

  class Cpu {
    const pTaskQueue: TaskQueue
    var pCurrentTask: Task?
    var pCurrentPageMap: nat
    var nextId: nat
    ghost const queues: seq<TaskQueue>
    ghost var links: set<object>       // the lists and their nodes
    ghost var tasks: seq<seq<Task>>    // the tasks of each list, in order
    ghost var all: set<Task>
    ghost var view: SchedSpec.Sched    // the state the objects are in

    /** Queue q's list is a ring through its head and its tasks. */
    ghost predicate RingOk(q: nat)
      reads this`tasks, this`links, links
    {
      && |queues| == LEVELS && |tasks| == LEVELS && q < LEVELS && queues[q].tasks in links
      && queues[q].pNext == (if q + 1 < LEVELS then queues[q + 1] else null)
      && (forall i :: 0 <= i < |queues[q].tasks.nodes| ==> queues[q].tasks.nodes[i] in links)
      && queues[q].tasks.Linked() && queues[q].tasks.count == |tasks[q]| && |queues[q].tasks.nodes| == |tasks[q]| + 1
      && (forall k :: 0 <= k < |tasks[q]| ==> queues[q].tasks.nodes[k + 1].pData == tasks[q][k])
    }

    /** Different queues share no list and no node. */
    ghost predicate Separate(q: nat, r: nat)
      reads this`tasks, this`links, links
    {
      && RingOk(q) && RingOk(r) && queues[q] != queues[r] && queues[q].tasks != queues[r].tasks
      && forall i, j :: 0 <= i < |queues[q].tasks.nodes| && 0 <= j < |queues[r].tasks.nodes| ==>
           queues[q].tasks.nodes[i] != queues[r].tasks.nodes[j]
    }

    ghost predicate RingsOk()
      reads this`tasks, this`links, this`all, links
    {
      && this !in links && (forall q :: 0 <= q < |queues| ==> queues[q] !in links) &&
          (forall t :: t in all ==> t !in links)
      && |queues| == LEVELS && |tasks| == LEVELS && pTaskQueue == queues[0]
      && queues[0].priority == 3 && queues[1].priority == 2 && queues[2].priority == 1
      && Separate(0, 1) && Separate(0, 2) && Separate(1, 2)
    }

    /** Each queue's mark and iterator. */
    ghost predicate IteratorOk(s: SchedSpec.Sched, q: nat)
      requires q < |queues|
      reads this`tasks, this`links, links, queues[q]
    {
      && RingOk(q) && |s.its| == LEVELS && s.its[q] <= |tasks[q]|
      && (queues[q].hasRunnableTask <==> tasks[q] != []) && queues[q].pIterator == queues[q].tasks.nodes[s.its[q]]
    }

    ghost predicate IteratorsOk(s: SchedSpec.Sched)
      reads this`tasks, this`links, links, queues
    {
      |queues| == LEVELS && IteratorOk(s, 0) && IteratorOk(s, 1) && IteratorOk(s, 2)
    }

    /** Every task object is in the state given. */
    ghost predicate TasksShow(s: SchedSpec.Sched)
      reads this`tasks, this`all, all
    {
      && |s.queues| == LEVELS && |tasks| == LEVELS
      && (forall q :: 0 <= q < LEVELS ==> |s.queues[q]| == |tasks[q]|)
      && (forall p :: IsTask(s, p) ==> TaskShows(s, p))
    }

    ghost predicate TaskShows(s: SchedSpec.Sched, p: Place)
      requires IsTask(s, p)
      reads this`tasks, this`all, all
    {
      && p.queue < |tasks| && p.index < |tasks[p.queue]| && tasks[p.queue][p.index] in all
      && tasks[p.queue][p.index].Is(TaskOf(s, p), p)
    }

    ghost predicate CurrentOk(s: SchedSpec.Sched)
      reads this`pCurrentPageMap, this`nextId, this`pCurrentTask, this`tasks
    {
      && pCurrentPageMap == s.pageMap && nextId == s.nextId
      && (s.current.Idle? ==> pCurrentTask == null)
      && (s.current.At? ==>
            var p := s.current.place;
            p.queue < |tasks| && p.index < |tasks[p.queue]| && pCurrentTask == tasks[p.queue][p.index])
    }

    ghost predicate Shows(s: SchedSpec.Sched)
      reads this`tasks, this`links, this`all, this`pCurrentTask, this`pCurrentPageMap, this`nextId, links, queues, all
    {
      RingsOk() && IteratorsOk(s) && TasksShow(s) && CurrentOk(s)
    }

    ghost predicate Valid()
      reads this, links, queues, all
    {
      SchedOk(view) && Shows(view)
    }

    /** A CPU with three empty queues and nothing to run. */
    constructor (pageMap: nat)
      ensures Valid() && view == Empty(pageMap) && fresh(links) && fresh(queues) && all == {}
    {
      hide List.Linked, SchedOk, IsTask;
      var high;
      ghost var qs, ls;
      high, qs, ls := CreateTaskQueues();
      pTaskQueue, queues := high, qs;
      pCurrentTask, pCurrentPageMap, nextId := null, pageMap, 0;
      links := ls;
      tasks, all, view := [[], [], []], {}, Empty(pageMap);
      new;
      EmptyOk(pageMap);
      assert RingOk(0) && RingOk(1) && RingOk(2);
    }

    method GetQueueFromPriority(priority: nat) returns (queue: TaskQueue)
      requires RingsOk()
      ensures queue == queues[QueueOf(priority)]
      ensures queue.priority == if 1 <= priority <= 3 then priority else 1
    {
      if priority == 3 {
        queue := pTaskQueue;
      } else if priority == 2 {
        queue := pTaskQueue.pNext;
      } else {
        queue := pTaskQueue.pNext.pNext;
      }
    }

    /** Saves the interrupted task's registers and makes it ready again. */
    method SaveCurrent(ctx: Context)
      requires Valid()
      modifies all
      ensures Shows(Saved(view, ctx))
    {
      hide RingsOk, RingOk, Separate, SchedOk, IsTask;
      Pairs(0);
      CurrentIsTask(view);
      ghost var s := view;
      if pCurrentTask != null {
        ghost var p := s.current.place;
        assert TaskShows(s, p);
        pCurrentTask.ctx := ctx;
        if pCurrentTask.flags == RUNNING {
          pCurrentTask.flags := READY;
        }
        ghost var s' := Saved(s, ctx);
        forall p' | IsTask(s', p') ensures TaskShows(s', p') {
          SavedTasks(s, ctx, p');
          assert old(TaskShows(s, p'));
        }
      }
    }

    /** The search for the highest queue that can run; null when there is none. */
    method FindQueue(ghost s: SchedSpec.Sched) returns (queue: TaskQueue?)
      requires RingsOk() && IteratorsOk(s) && TasksShow(s)
      ensures var h := Highest(s, 0);
        queue == if h < LEVELS then queues[h] else null
    {
      hide List.Linked;
      ghost var q := 0;
      queue := pTaskQueue;
      while queue.tasks.count == 0 || !queue.hasRunnableTask
        invariant q < LEVELS && queue == queues[q] && Highest(s, 0) == Highest(s, q)
        decreases LEVELS - q
      {
        assert RingOk(q) && IteratorOk(s, q);
        if queue.pNext == null { return null; }
        queue := queue.pNext;
        q := q + 1;
      }
    }

    /** Advances the iterator, past the head, to the next task that is ready. */
    method NextTask(queue: TaskQueue, ghost s: SchedSpec.Sched, ghost q: nat) returns (task: Task)
      requires q < |queues| && queue == queues[q] && IteratorOk(s, q) && TasksShow(s) && tasks[q] != [] &&
          queue !in links
      requires forall p :: IsTask(s, p) ==> TaskOf(s, p).flags == READY
      modifies queue`pIterator
      ensures var k := NextPosition(s.its[q], |tasks[q]|);
        task == tasks[q][k - 1] && queue.pIterator == queue.tasks.nodes[k]
    {
      ghost var it, n := s.its[q], |tasks[q]|;
      assert queue.tasks.LinksAt(it) && queue.tasks.LinksAt(0);
      var found: Task? := null;
      while found == null
        invariant found == null ==> queue.pIterator == queue.tasks.nodes[it]
        invariant found != null ==>
          queue.pIterator == queue.tasks.nodes[NextPosition(it, n)] && found == tasks[q][NextPosition(it, n) - 1]
        decreases if found == null then 1 else 0
      {
        queue.pIterator := queue.pIterator.pNext;
        if queue.pIterator == queue.tasks.pHead {
          queue.pIterator := queue.pIterator.pNext;
        }
        ghost var k := NextPosition(it, n);
        assert queue.pIterator == queue.tasks.nodes[(k - 1) + 1];
        assert TaskShows(s, Place(q, k - 1));
        if queue.pIterator.pData.flags == READY {
          found := queue.pIterator.pData;
        }
      }
      task := found;
    }

    /** The same, and what it does to the iterators. */
    method Advance(queue: TaskQueue, ghost s: SchedSpec.Sched, ghost q: nat) returns (task: Task)
      requires RingsOk() && IteratorsOk(s) && TasksShow(s) && q < LEVELS && queue == queues[q] && tasks[q] != []
      requires forall p :: IsTask(s, p) ==> TaskOf(s, p).flags == READY
      modifies queue`pIterator
      ensures var k := NextPosition(s.its[q], |tasks[q]|);
        && task == tasks[q][k - 1] && |s.its| == LEVELS && |s.queues| == LEVELS && |s.queues[q]| == |tasks[q]|
        && IteratorsOk(Dispatched(s, q, k))
    {
      assert queues[0] != queues[1] && queues[0] != queues[2] && queues[1] != queues[2];
      assert IteratorOk(s, q) && |s.its| == LEVELS && s.its[q] <= |tasks[q]| == |s.queues[q]|;
      hide RingOk, Separate, TasksShow, IsTask, NextPosition;
      task := NextTask(queue, s, q);
    }

    lemma TaskObjects(s: SchedSpec.Sched)
      requires TasksShow(s)
      ensures |tasks| == LEVELS && |s.queues| == LEVELS && forall q :: 0 <= q < LEVELS ==> |tasks[q]| == |s.queues[q]|
      ensures forall q, k :: 0 <= q < LEVELS && 0 <= k < |tasks[q]| ==> tasks[q][k] in all
    {
      forall q: nat, k: nat | q < LEVELS && k < |tasks[q]|
          ensures tasks[q][k] in all { assert TaskShows(s, Place(q, k)); }
    }

    /** The end of KxSchedule: the task becomes the running one. */
    method Dispatch(task: Task, ghost s: SchedSpec.Sched, ghost h: nat, ghost k: nat) returns (resumed: Context)
      requires RingsOk() && TasksShow(s) && h < LEVELS && |s.its| == LEVELS && 1 <= k <= |s.queues[h]|
      requires task == tasks[h][k - 1] && nextId == s.nextId
      requires IteratorsOk(Dispatched(s, h, k))
      modifies this`pCurrentTask, this`pCurrentPageMap, task`flags
      ensures Shows(Dispatched(s, h, k)) && resumed == TaskOf(s, Place(h, k - 1)).ctx &&
          task.priority == TaskOf(s, Place(h, k - 1)).priority
    {
      hide RingOk, Separate, IteratorOk, IsTask, Dispatched;
      ghost var s' := Dispatched(s, h, k);
      ghost var p := Place(h, k - 1);
      DispatchedCurrent(s, h, k);
      assert TaskShows(s, p);
      pCurrentTask := task;
      task.flags := RUNNING;
      resumed := task.ctx;
      pCurrentPageMap := task.pageMap;
      DispatchedTasks(s, h, k, p);
      forall p' | IsTask(s', p') ensures TaskShows(s', p') {
        DispatchedTasks(s, h, k, p');
        assert old(TaskShows(s, p'));
      }
    }

    /** Runs the next ready task of the queue found. */
    method RunNext(queue: TaskQueue, ghost s: SchedSpec.Sched, ghost h: nat) returns (task: Task, resumed: Context)
      requires RingsOk() && IteratorsOk(s) && TasksShow(s) && nextId == s.nextId && this !in links
      requires h < LEVELS && queue == queues[h] && |s.queues| == LEVELS && s.queues[h] != []
      requires forall p :: IsTask(s, p) ==> TaskOf(s, p).flags == READY
      modifies this`pCurrentTask, this`pCurrentPageMap, queue`pIterator, all
      ensures |s.its| == LEVELS && s.its[h] <= |s.queues[h]|
      ensures var k := NextPosition(s.its[h], |s.queues[h]|);
        && Shows(Dispatched(s, h, k)) && IsTask(s, Place(h, k - 1)) && resumed == TaskOf(s, Place(h, k - 1)).ctx
        && task.priority == TaskOf(s, Place(h, k - 1)).priority
    {
      hide RingsOk, RingOk, Separate, IteratorOk, TasksShow, NextPosition, Dispatched, IsTask, Shows;
      RingSizes();
      IteratorsBounded(s);
      TaskObjects(s);
      ghost var k := NextPosition(s.its[h], |s.queues[h]|);
      DispatchedCurrent(s, h, k);
      task := Advance(queue, s, h);
      resumed := Dispatch(task, s, h, k);
    }

    lemma IteratorsBounded(s: SchedSpec.Sched)
      requires IteratorsOk(s)
      ensures |s.its| == LEVELS && |tasks| == LEVELS && forall q :: 0 <= q < LEVELS ==> s.its[q] <= |tasks[q]|
    {}

    /** The first half of KxSchedule: saves the interrupted task and finds the queue to run from. */
    method FindNext(ctx: Context) returns (queue: TaskQueue?)
      requires Valid()
      modifies all
      ensures Shows(Saved(view, ctx)) && this !in links && |queues| == LEVELS && |view.queues| == LEVELS
      ensures var h := Highest(view, 0); queue == if h < LEVELS then queues[h] else null
    {
      hide Shows, RingsOk, IteratorsOk, TasksShow, SchedOk, Saved, Highest, IsTask;
      ghost var s := view;
      IteratorsOnRings(s);
      SaveCurrent(ctx);
      ShowsParts(Saved(s, ctx));
      SavedReady(s, ctx);
      queue := FindQueue(Saved(s, ctx));
    }

    /**
      KxSchedule: saves the interrupted task, then runs the next ready task of the highest queue that has any.
      Returns the registers to resume with and the timer interval.
     */
    method Schedule(ctx: Context) returns (resumed: Context, interval: nat)
      requires Valid()
      modifies this, queues, all
      ensures Valid() && view == Tick(old(view), ctx) && resumed == Resumed(old(view), ctx)
      ensures tasks == old(tasks) && all == old(all) && links == old(links)
      ensures interval == Interval(old(view))
    {
      hide Shows, RingsOk, IteratorsOk, TasksShow, SchedOk, Saved, Highest, NextPosition, Dispatched, IsTask, Tick,
          Resumed, Interval, Chosen;
      ghost var s := view;
      IteratorsOnRings(s);
      var queue := FindNext(ctx);
      ghost var s1, h := Saved(s, ctx), Highest(s, 0);
      ShowsParts(s1);
      SavedReady(s, ctx);
      TickOk(s, ctx);
      TickDispatches(s, ctx);
      if queue == null {
        resumed, interval := ctx, QUANTUM * 5;
      } else {
        var task;
        task, resumed := RunNext(queue, s1, h);
        interval := QUANTUM * task.priority;
      }
      view := Tick(s, ctx);
    }

    lemma ShowsParts(s: SchedSpec.Sched)
      requires Shows(s)
      ensures RingsOk() && IteratorsOk(s) && TasksShow(s) && nextId == s.nextId && this !in links && |queues| == LEVELS
    {}

    /** Appends a task to a queue's list, which is still its ring. */
    method LinkTask(queue: TaskQueue, task: Task, ghost q: nat) returns (ghost item: ListItem)
      requires RingOk(q) && queue == queues[q] && queue !in links && task !in links
      modifies queue.tasks`nodes, queue.tasks`count, queue.tasks.nodes`pNext, queue.tasks.nodes`pPrev, this`tasks,
          this`links, this`all
      ensures tasks == old(tasks)[q := old(tasks)[q] + [task]] && all == old(all) + {task} &&
          links == old(links) + {item}
      ensures fresh(item) && queue.tasks.nodes == old(queue.tasks.nodes) + [item]
      ensures RingOk(q)
    {
      hide List.LinksAt, List.Linked;
      item := queue.tasks.Append(task);
      links, all := links + {item}, all + {task};
      tasks := tasks[q := tasks[q] + [task]];
    }

    /** Appends a task to a queue's list; every queue's list is still its ring. */
    method LinkRing(queue: TaskQueue, task: Task, ghost q: nat) returns (ghost item: ListItem)
      requires RingsOk() && q < LEVELS && queue == queues[q] && task !in links
      modifies queue.tasks`nodes, queue.tasks`count, queue.tasks.nodes`pNext, queue.tasks.nodes`pPrev, this`tasks,
          this`links, this`all
      ensures tasks == old(tasks)[q := old(tasks)[q] + [task]] && all == old(all) + {task} &&
          links == old(links) + {item}
      ensures fresh(item) && queue.tasks.nodes == old(queue.tasks.nodes) + [item]
      ensures forall r :: 0 <= r < LEVELS ==> RingOk(r)
    {
      hide List.LinksAt, List.Linked, RingsOk;
      Pairs(q);
      RingSizes();
      item := LinkTask(queue, task, q);
      forall r: nat | r < LEVELS && r != q ensures RingOk(r) {
        assert old(RingOk(r)) && old(Separate(q, r));
        assert queues[r].tasks.Linked();
      }
    }

    /** Appends a task to a queue's list; the rings stay apart. */
    method Link(queue: TaskQueue, task: Task, ghost q: nat)
      requires RingsOk() && q < LEVELS && queue == queues[q] && task !in links
      modifies queue.tasks`nodes, queue.tasks`count, queue.tasks.nodes`pNext, queue.tasks.nodes`pPrev, this`tasks,
          this`links, this`all
      ensures all == old(all) + {task}
      ensures tasks == old(tasks)[q := old(tasks)[q] + [task]] && fresh(links - old(links)) && task !in links
      ensures RingsOk() && queue.tasks.nodes[..|old(queue.tasks.nodes)|] == old(queue.tasks.nodes)
    {
      hide RingsOk, RingOk;
      Pairs(q);
      RingSizes();
      ghost var item := LinkRing(queue, task, q);
      forall r: nat, t: nat | r < t < LEVELS ensures Separate(r, t) {
        assert old(Separate(r, t));
      }
      hide Separate;
      RingsFrom();
    }

    lemma RingsFrom()
      requires this !in links && (forall q :: 0 <= q < |queues| ==> queues[q] !in links) &&
          (forall t :: t in all ==> t !in links)
      requires |queues| == LEVELS && |tasks| == LEVELS && pTaskQueue == queues[0]
      requires queues[0].priority == 3 && queues[1].priority == 2 && queues[2].priority == 1
      requires Separate(0, 1) && Separate(0, 2) && Separate(1, 2)
      ensures RingsOk()
    {}

    /** The part of KxCreateTask that puts the task on its queue. */
    method Enqueue(queue: TaskQueue, task: Task, ghost s: SchedSpec.Sched, ghost q: nat)
      requires RingsOk() && IteratorsOk(s) && q < LEVELS && queue == queues[q] && task !in links
      modifies queue`hasRunnableTask, queue.tasks`nodes, queue.tasks`count, queue.tasks.nodes`pNext,
          queue.tasks.nodes`pPrev
      modifies this`tasks, this`links, this`all
      ensures all == old(all) + {task}
      ensures tasks == old(tasks)[q := old(tasks)[q] + [task]] && fresh(links - old(links))
      ensures RingsOk() && IteratorsOk(s) && task !in links
    {
      hide RingsOk, RingOk, Separate;
      RingSizes();
      DistinctQueues();
      queue.hasRunnableTask := true;
      Link(queue, task, q);
      RingSizes();
    }

    lemma Pairs(q: nat)
      requires RingsOk() && q < LEVELS
      ensures RingOk(q) && forall r :: 0 <= r < LEVELS && r != q ==> RingOk(r) && Separate(q, r) && Separate(r, q)
      ensures forall r, t :: 0 <= r < t < LEVELS ==> Separate(r, t)
      ensures this !in links && (forall q :: 0 <= q < |queues| ==> queues[q] !in links) &&
          (forall t :: t in all ==> t !in links)
      ensures |queues| == LEVELS && |tasks| == LEVELS && pTaskQueue == queues[0]
      ensures queues[0].priority == 3 && queues[1].priority == 2 && queues[2].priority == 1
    {
      assert Separate(0, 1) && Separate(0, 2) && Separate(1, 2);
    }

    lemma QueuePriorities(priority: nat)
      requires RingsOk()
      ensures |queues| == LEVELS && forall q :: 0 <= q < LEVELS ==>
          (queues[q].priority == (if 1 <= priority <= 3 then priority else 1) <==> q == QueueOf(priority))
    {
      hide Separate;
    }

    lemma DistinctQueues()
      requires RingsOk()
      ensures forall q, r :: 0 <= q < r < LEVELS ==> queues[q] != queues[r] && queues[q].tasks != queues[r].tasks
    {
      assert Separate(0, 1) && Separate(0, 2) && Separate(1, 2);
    }

    lemma SameIterators(s: SchedSpec.Sched, s': SchedSpec.Sched)
      requires IteratorsOk(s) && s'.its == s.its
      ensures IteratorsOk(s')
    {
      hide RingOk;
    }

    lemma RingSizes()
      requires RingsOk()
      ensures |queues| == LEVELS && |tasks| == LEVELS && RingOk(0) && RingOk(1) && RingOk(2)
      ensures forall q :: 0 <= q < LEVELS ==> |queues[q].tasks.nodes| == |tasks[q]| + 1
      ensures this !in links && forall q :: 0 <= q < LEVELS ==> queues[q] !in links && queues[q].tasks in links
      ensures forall q, i :: 0 <= q < LEVELS && 0 <= i <= |tasks[q]| ==> queues[q].tasks.nodes[i] in links
    {
      assert RingOk(0) && RingOk(1) && RingOk(2);
    }

    /** KxCreateTask up to the state it leaves: the new task is made and is the last of its queue. */
    method MakeTask(priority: nat, pageMap: nat, ctx: Context) returns (task: Task)
      requires Valid()
      modifies this`nextId, this`tasks, this`links, this`all, queues, links
      ensures RingsOk() && IteratorsOk(view) && nextId == view.nextId + 1 && |view.queues| == LEVELS
      ensures forall p :: IsTask(view, p) ==> TaskShows(view, p)
      ensures var q := QueueOf(priority);
        && tasks == old(tasks)[q := old(tasks)[q] + [task]] && |old(tasks)| == LEVELS
        && task.Is(Rec(view.nextId, priority, pageMap, READY, ctx), Place(q, |view.queues[q]|))
        && forall r :: 0 <= r < LEVELS ==> |old(tasks[r])| == |view.queues[r]|
      ensures fresh(task) && all == old(all) + {task} && fresh(links - old(links))
    {
      hide RingsOk, RingOk, Separate, IteratorsOk, SchedOk, IsTask;
      RingSizes();
      var queue := GetQueueFromPriority(priority);
      ghost var q := QueueOf(priority);
      task := new Task(nextId, priority, pageMap, ctx, Place(q, |tasks[q]|));
      nextId := nextId + 1;
      Enqueue(queue, task, view, q);
      forall p | IsTask(view, p) ensures TaskShows(view, p) { assert old(TaskShows(view, p)); }
    }

    /** KxCreateTask; the stack, the page map and the registers that are not set come from the allocators. */
    method CreateTask(entry: nat, priority: nat, stack: nat, pageMap: nat, rest: seq<nat>) returns (task: Task)
      requires Valid()
      modifies this, queues, links
      ensures Valid() && view == Create(old(view), priority, pageMap, NewContext(entry, stack, rest))
      ensures |queues| == LEVELS && |old(tasks)| == LEVELS && |tasks| == LEVELS
      ensures forall q :: 0 <= q < LEVELS ==>
          tasks[q] == if queues[q].priority == (if 1 <= priority <= 3 then priority else 1) then old(tasks[q]) + [task]
            else old(tasks[q])
      ensures fresh(task) && all == old(all) + {task} && fresh(links - old(links))
    {
      hide RingsOk, IteratorsOk, SchedOk, NewContext, TaskShows, TasksShow;
      ghost var s := view;
      RingSizes();
      QueuePriorities(priority);
      CurrentIsTask(s);
      var ctx := NewContext(entry, stack, rest);
      task := MakeTask(priority, pageMap, ctx);
      CreateOk(s, priority, pageMap, ctx);
      CreatedQueue(s, priority, pageMap, ctx);
      SameIterators(s, Create(s, priority, pageMap, ctx));
      RingSizes();
      NewTaskShown(s, priority, pageMap, ctx, task);
      view := Create(s, priority, pageMap, ctx);
    }

    lemma NewTaskShown(s: SchedSpec.Sched, priority: nat, pageMap: nat, ctx: Context, task: Task)
      requires SchedOk(s) && |tasks| == LEVELS && |s.queues| == LEVELS && forall p :: IsTask(s, p) ==> TaskShows(s, p)
      requires forall r :: 0 <= r < LEVELS ==> |tasks[r]| == |s.queues[r]| + if r == QueueOf(priority) then 1 else 0
      requires var q := QueueOf(priority);
        var k := |s.queues[q]|;
        tasks[q][k] == task && task in all && task.Is(Rec(s.nextId, priority, pageMap, READY, ctx), Place(q, k))
      ensures TasksShow(Create(s, priority, pageMap, ctx))
    {
      CreateOk(s, priority, pageMap, ctx);
      CreatedQueue(s, priority, pageMap, ctx);
      hide IsTask, Create, SchedOk;
      var s' := Create(s, priority, pageMap, ctx);
      forall p | IsTask(s', p) ensures TaskShows(s', p) {
        if IsTask(s, p) { assert TaskShows(s, p); }
      }
    }
  }

  datatype Request = Spawn(entry: nat, priority: nat, stack: nat, pageMap: nat,
      rest: seq<nat>) | Interrupt(found: Context)

  function EventOf(r: Request): Event {
    match r
    case Spawn(entry, priority, stack, pageMap, rest) => New(priority, pageMap, NewContext(entry, stack, rest))
    case Interrupt(found) => Timer(found)
  }

  function EventsOf(rs: seq<Request>): seq<Event> {
    if rs == [] then [] else EventsOf(rs[..|rs| - 1]) + [EventOf(rs[|rs| - 1])]
  }

  lemma EventsStep(rs: seq<Request>, i: nat)
    requires i < |rs|
    ensures EventsOf(rs[..i + 1]) == EventsOf(rs[..i]) + [EventOf(rs[i])]
  {
    assert rs[..i + 1][..i] == rs[..i];
  }

  lemma RunStep(s: SchedSpec.Sched, es: seq<Event>, e: Event)
    requires SchedOk(s)
    ensures RunAll(s, es + [e]) == Apply(RunAll(s, es), e)
  {
    assert (es + [e])[..|es|] == es;
  }

  /** Any interleaving of task creations and timer interrupts leaves the objects in the state of the run. */
  method Run(cpu: Cpu, rs: seq<Request>)
    requires cpu.Valid()
    modifies cpu, cpu.queues, cpu.links, cpu.all
    ensures cpu.Valid() && SchedOk(old(cpu.view)) && cpu.view == RunAll(old(cpu.view), EventsOf(rs))
  {
    hide SchedOk, EventsOf, RunAll;
    ghost var s := cpu.view;
    NoEvents(s);
    assert rs[..0] == [];
    for i := 0 to |rs|
      invariant cpu.Valid() && cpu.view == RunAll(s, EventsOf(rs[..i]))
      invariant fresh(cpu.links - old(cpu.links)) && fresh(cpu.all - old(cpu.all))
    {
      EventsStep(rs, i);
      RunStep(s, EventsOf(rs[..i]), EventOf(rs[i]));
      match rs[i]
      case Spawn(entry, priority, stack, pageMap, rest) =>
        var task := cpu.CreateTask(entry, priority, stack, pageMap, rest);
      case Interrupt(found) =>
        var resumed, interval := cpu.Schedule(found);
    }
    assert rs[..|rs|] == rs;
  }

  lemma NoEvents(s: SchedSpec.Sched)
    requires SchedOk(s)
    ensures EventsOf([]) == [] && RunAll(s, []) == s
  {}
}
