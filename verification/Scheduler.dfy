/**
 The scheduler of kernel/scheduler.c and the task operations of kernel/task.c on task
 control blocks: a circular ready queue linked through `next` and children linked through
 `next_sibling`.  Every operation is proved to be a step of the task state machine.
 */
module Scheduler {
  import opened Tasks

  ghost function ParentOf(p: Task?): Option<Task> {
    if p == null then None else var t: Task := p; Some(t)
  }

  lemma OneUpdated<T>(a: map<Task, T>, b: map<Task, T>, t: Task)
    requires a.Keys == b.Keys && t in a && forall p :: p in a && p != t ==> b[p] == a[p]
    ensures b == a[t := b[t]]
  {
  }

  class Task {
    var pid: nat
    var state: State
    var slice: nat
    var total: nat
    var wake: nat
    var code: int
    var waited: bool
    var next: Task?
    var parent: Task?
    var firstChild: Task?
    var nextSibling: Task?

    // task_create's initial block.
    constructor (pid_: nat)
      ensures pid == pid_ && state == Ready && slice == TIME_SLICE && total == 0 && wake == 0 && code == 0 && !waited
      ensures next == null && parent == null && firstChild == null && nextSibling == null
    {
      pid, state, slice, total, wake, code, waited := pid_, Ready, TIME_SLICE, 0, 0, 0, false;
      next, parent, firstChild, nextSibling := null, null, null, null;
    }

    ghost function Block(children: seq<Task>): Tcb<Task>
      reads this`pid, this`state, this`slice, this`total, this`wake, this`parent, this`code, this`waited
    {
      Tcb(pid, state, slice, total, wake, ParentOf(parent), children, code, waited)
    }
  }

  // The circular list from head on, linked through next, is q.
  ghost predicate Circle(head: Task?, tail: Task?, q: seq<Task>)
    reads q`next
  {
    && NoRepeats(q)
    && (q == [] <==> head == null)
    && (q != [] ==> head == q[0] && tail == q[|q| - 1] && q[|q| - 1].next == q[0])
    && forall i :: 0 <= i < |q| - 1 ==> q[i].next == q[i + 1]
  }

  // The list from head on, linked through next_sibling, is c, all children of p.
  ghost predicate Siblings(head: Task?, c: seq<Task>, p: Task)
    reads c`parent, c`nextSibling
  {
    && NoRepeats(c)
    && head == (if c == [] then null else c[0])
    && (forall i :: 0 <= i < |c| ==> c[i].parent == p)
    && (forall i :: 0 <= i < |c| - 1 ==> c[i].nextSibling == c[i + 1])
    && (c != [] ==> c[|c| - 1].nextSibling == null)
  }

  lemma SiblingsCons(head: Task?, q: seq<Task>, p: Task, c: Task)
    requires Siblings(head, q, p) && c !in q && c.parent == p && c.nextSibling == head
    ensures Siblings(c, [c] + q, p)
  {
  }

  lemma SiblingsNone(p: Task)
    ensures Siblings(null, [], p)
  {
  }

  class Kernel {
    const kernel: Task
    var current: Task
    var readyQueue: Task?
    var tail: Task?
    var ticks: nat
    var totalTasks: nat
    var readyTasks: nat
    var blockedTasks: nat
    var contextSwitches: nat
    ghost var all: set<Task>
    ghost var queue: seq<Task>
    ghost var kids: map<Task, seq<Task>>

    /** task_init and scheduler_init. */
    constructor ()
      ensures Valid() && Counted() && Abs() == Boot(kernel) && fresh(all) && totalTasks == 0
    {
      var k := new Task(0);
      k.state, k.slice := Running, 0;
      kernel, current, readyQueue, tail := k, k, null, null;
      ticks, totalTasks, readyTasks, blockedTasks, contextSwitches := 0, 0, 0, 0, 0;
      all, queue, kids := {k}, [], map[k := []];
      new;
      SiblingsNone(k);
      hide Siblings, Closed;
      assert Blocks() == map[k := k.Block([])];
    }

    // The ready queue is a circle through its tasks in order.
    ghost predicate QueueOk()
      reads this`queue, this`all, this`readyQueue, this`tail, all`next
    {
      kernel !in queue && (forall i :: 0 <= i < |queue| ==> queue[i] in all) && Circle(readyQueue, tail, queue)
    }

    // The children of the tasks in ts are linked in order.
    ghost predicate KidsOn(ts: set<Task>)
      reads this`all, this`kids, kids.Keys`parent, kids.Keys`firstChild, kids.Keys`nextSibling
    {
      ts <= kids.Keys <= all && forall p :: p in ts ==> KidsOf(p)
    }

    ghost predicate KidsOf(p: Task)
      requires p in kids
      reads this`all, this`kids, kids.Keys`parent, kids.Keys`firstChild, kids.Keys`nextSibling
    {
      && (forall i :: 0 <= i < |kids[p]| ==> kids[p][i] in kids)
      && Siblings(p.firstChild, kids[p], p)
      && (p.parent != null ==> p.parent in kids)
    }

    ghost predicate KidsOk()
      reads this`all, this`kids, kids.Keys`parent, kids.Keys`firstChild, kids.Keys`nextSibling
    {
      kids.Keys == all && KidsOn(all)
    }

    ghost predicate Valid()
      reads this`all, this`queue, this`kids, this`current, this`readyQueue, this`tail
      reads all`next, all`parent, all`firstChild, all`nextSibling
    {
      kernel in all && current in all && kids.Keys == all && QueueOk() && KidsOk()
    }

    // total_tasks is the length of the queue.
    ghost predicate Counted()
      reads this`totalTasks, this`queue
    {
      totalTasks == |queue|
    }

    // The state of the task system.
    ghost function Abs(): (r: Sys<Task>)
      requires Valid()
      reads this`all, this`queue, this`kids, this`current, this`ticks, this`readyQueue, this`tail, all
      ensures Closed(r)
    {
      ViewClosed();
      View()
    }

    ghost function View(): Sys<Task>
      reads this`queue, this`kids, this`current, this`ticks
      reads kids.Keys`pid, kids.Keys`state, kids.Keys`slice, kids.Keys`total, kids.Keys`wake
      reads kids.Keys`parent, kids.Keys`code, kids.Keys`waited
    {
      Sys(Blocks(), queue, current, kernel, ticks)
    }

    ghost function Blocks(): (r: map<Task, Tcb<Task>>)
      reads this`kids
      reads kids.Keys`pid, kids.Keys`state, kids.Keys`slice, kids.Keys`total, kids.Keys`wake
      reads kids.Keys`parent, kids.Keys`code, kids.Keys`waited
      ensures r.Keys == kids.Keys
    {
      map t | t in kids :: t.Block(kids[t])
    }

    lemma AbsAt(t: Task)
      requires Valid() && t in all
      ensures t in Abs().tasks && Abs().tasks[t] == t.Block(kids[t])
      ensures Abs().queue == queue && Abs().current == current && Abs().kernel == kernel && Abs().ticks == ticks
      ensures Abs().tasks.Keys == all
    {
    }

    lemma KidsHave(q: Task)
      requires Valid() && q in all
      ensures (forall i :: 0 <= i < |kids[q]| ==> kids[q][i] in all) && Siblings(q.firstChild, kids[q], q)
      ensures q.parent != null ==> q.parent in all
    {
      assert KidsOf(q);
    }

    lemma ViewClosed()
      requires Valid()
      ensures Closed(View())
    {
      forall p | p in all
        ensures p.parent != null ==> p.parent in all
        ensures forall i :: 0 <= i < |kids[p]| ==> kids[p][i] in all
      {
        assert KidsOf(p);
      }
    }

    // ---------------------------------------------------------------- single fields

    method SetState(t: Task, st: State)
      requires Valid() && t in all
      modifies t`state
      ensures Valid() && Abs() == old(Abs()).(tasks := Tasks.SetState(old(Abs()).tasks, t, st))
    {
      hide QueueOk, KidsOk, Closed;
      ghost var a := Abs().tasks;
      t.state := st;
      assert forall p :: p in all && p != t ==> Abs().tasks[p] == a[p];
      OneUpdated(a, Abs().tasks, t);
    }

    method SetSlice(t: Task, slice: nat, total: nat)
      requires Valid() && t in all
      modifies t`slice, t`total
      ensures Valid()
              && Abs() == old(Abs()).(
                   tasks := old(Abs()).tasks[t := old(Abs()).tasks[t].(slice := slice, total := total)])
    {
      hide QueueOk, KidsOk, Closed;
      ghost var a := Abs().tasks;
      t.slice, t.total := slice, total;
      assert forall p :: p in all && p != t ==> Abs().tasks[p] == a[p];
      OneUpdated(a, Abs().tasks, t);
    }

    method SetWake(t: Task, st: State, wake: nat)
      requires Valid() && t in all
      modifies t`state, t`wake
      ensures Valid()
              && Abs() == old(Abs()).(tasks := old(Abs()).tasks[t := old(Abs()).tasks[t].(state := st, wake := wake)])
    {
      hide QueueOk, KidsOk, Closed;
      ghost var a := Abs().tasks;
      t.state, t.wake := st, wake;
      assert forall p :: p in all && p != t ==> Abs().tasks[p] == a[p];
      OneUpdated(a, Abs().tasks, t);
    }

    method SetDead(t: Task, code: int)
      requires Valid() && t in all
      modifies t`state, t`code
      ensures Valid()
              && Abs() == old(Abs()).(
                   tasks := old(Abs()).tasks[t := old(Abs()).tasks[t].(state := Zombie, code := code)])
    {
      hide QueueOk, KidsOk, Closed;
      ghost var a := Abs().tasks;
      t.state, t.code := Zombie, code;
      assert forall p :: p in all && p != t ==> Abs().tasks[p] == a[p];
      OneUpdated(a, Abs().tasks, t);
    }

    // ---------------------------------------------------------------- picking

    /** get_next_ready_task: the first READY task in queue order, else the kernel task. */
    method GetNextReady() returns (r: Task)
      requires Valid()
      ensures r in all && r == Pick(Abs().tasks, queue, kernel)
    {
      hide QueueOk, KidsOk, Abs;
      AbsAt(kernel);
      QueueEnds();
      if readyQueue == null {
        return kernel;
      }
      var task: Task := readyQueue;
      ghost var i := 0;
      while true
        invariant 0 <= i < |queue| && task == queue[i]
        invariant Pick(Abs().tasks, queue, kernel) == Pick(Abs().tasks, queue[i..], kernel)
        decreases |queue| - i
      {
        QueueNext(i);
        AbsAt(task);
        assert queue[i..][1..] == queue[i + 1..] && queue[i..][0] == task;
        if task.state == Ready {
          return task;
        }
        task := task.next;
        i := i + 1;
        if task == readyQueue {
          break;
        }
      }
      return kernel;
    }

    /** The numbers of READY and of BLOCKED or SLEEPING queued tasks. */
    method CountStates() returns (ready: nat, blocked: nat)
      requires Valid()
      ensures ready == CountIn(Abs().tasks, queue, {Ready})
              && blocked == CountIn(Abs().tasks, queue, {Blocked, Sleeping})
    {
      hide QueueOk, KidsOk, Abs, Closed, CountIn;
      ghost var tasks := Abs().tasks;
      ready, blocked := 0, 0;
      CountNone(tasks, queue, {Ready});
      CountNone(tasks, queue, {Blocked, Sleeping});
      QueueEnds();
      if readyQueue == null {
        return;
      }
      var task: Task := readyQueue;
      ghost var i := 0;
      while true
        invariant 0 <= i < |queue| && task == queue[i]
        invariant ready == CountIn(tasks, queue[..i], {Ready})
        invariant blocked == CountIn(tasks, queue[..i], {Blocked, Sleeping})
        decreases |queue| - i
      {
        QueueNext(i);
        AbsAt(task);
        CountNext(tasks, queue, i, {Ready});
        CountNext(tasks, queue, i, {Blocked, Sleeping});
        match task.state {
          case Ready => ready := ready + 1;
          case Blocked => blocked := blocked + 1;
          case Sleeping => blocked := blocked + 1;
          case _ =>
        }
        task := task.next;
        i := i + 1;
        if task == readyQueue {
          break;
        }
      }
      assert queue[..|queue|] == queue;
    }

    // update_statistics.
    method UpdateStatistics()
      requires Valid()
      modifies this`readyTasks, this`blockedTasks
      ensures Valid() && readyTasks == CountIn(Abs().tasks, queue, {Ready})
      ensures blockedTasks == CountIn(Abs().tasks, queue, {Blocked, Sleeping})
    {
      hide QueueOk, KidsOk, Abs, Closed, CountIn;
      readyTasks, blockedTasks := CountStates();
    }

    // One step along the circle.
    lemma QueueNext(i: nat)
      requires Valid() && i < |queue|
      ensures queue[i] in all && queue[i].next != null
      ensures i + 1 < |queue| ==> queue[i].next == queue[i + 1] && queue[i + 1] != readyQueue
      ensures i + 1 == |queue| ==> queue[i].next == readyQueue
    {
      if i + 1 < |queue| {
        assert queue[i].next == queue[i + 1];
      }
    }

    lemma QueueEnds()
      requires Valid()
      ensures queue == [] <==> readyQueue == null
      ensures queue != [] ==> readyQueue == queue[0]
      ensures NoRepeats(queue)
    {
    }

    /** scheduler_pick_next: the pick gets a full time slice. */
    method PickNext() returns (r: Task)
      requires Valid()
      modifies this`readyTasks, this`blockedTasks, all`slice, all`total
      ensures Valid() && r in all && r == Pick(old(Abs()).tasks, queue, kernel)
      ensures Abs() == old(Abs()).(tasks := old(Abs()).tasks[r := old(Abs()).tasks[r].(slice := TIME_SLICE)])
    {
      hide QueueOk, KidsOk, Closed, Pick, Abs;
      UpdateStatistics();
      r := GetNextReady();
      AbsAt(r);
      SetSlice(r, TIME_SLICE, r.total);
    }

    /** task_switch. */
    method TaskSwitch(t: Task)
      requires Valid() && t in all
      modifies this`current, all`state
      ensures Valid()
      ensures t == old(current) ==> Abs() == old(Abs())
      ensures t != old(current) ==>
                Abs() == old(Abs()).(tasks := Tasks.SetState(Demoted(old(Abs()).tasks, old(current)), t, Running),
                                     current := t)
    {
      hide QueueOk, KidsOk, Closed, Abs;
      if t == current {
        return;
      }
      AbsAt(current);
      AbsAt(t);
      if current.state == Running {
        SetState(current, Ready);
      }
      SetState(t, Running);
      SetCurrent(t);
    }

    method SetCurrent(t: Task)
      requires Valid() && t in all
      modifies this`current
      ensures Valid() && current == t && Abs() == old(Abs()).(current := t)
    {
      hide QueueOk, KidsOk, Closed;
      current := t;
    }

    /** scheduler_schedule is the switch step of the task system. */
    method Schedule()
      requires Valid()
      modifies this`current, this`readyTasks, this`blockedTasks, this`contextSwitches, all`state, all`slice, all`total
      ensures Valid() && Counted() == old(Counted()) && Abs() == Tasks.Schedule(old(Abs()))
    {
      hide QueueOk, KidsOk, Closed, Pick, Abs, Tasks.Schedule;
      ghost var s := Abs();
      AbsAt(current);
      if current.state == Running {
        SetState(current, Ready);
      }
      AbsAt(current);
      ghost var demoted := Abs().tasks;
      var next := PickNext();
      ScheduleIs(s, demoted, next);
      TwoUpdates(demoted, next, demoted[next].(slice := TIME_SLICE),
                 demoted[next].(state := Running, slice := TIME_SLICE));
      AbsAt(current);
      AbsAt(next);
      Run(next);
    }

    // The end of scheduler_schedule: the picked task runs.
    method Run(next: Task)
      requires Valid() && next in all && next.slice == TIME_SLICE && current.state != Running
      modifies this`current, this`contextSwitches, all`state, all`slice, all`total
      ensures Valid() && Abs() == old(Abs()).(tasks := Tasks.SetState(old(Abs()).tasks, next, Running), current := next)
    {
      hide QueueOk, KidsOk, Closed, Abs;
      AbsAt(next);
      AbsAt(current);
      if next == current {
        ghost var a := Abs().tasks;
        SetState(current, Running);
        AbsAt(current);
        SetSlice(current, TIME_SLICE, current.total);
        TwoUpdates(a, next, a[next].(state := Running), a[next].(state := Running));
        return;
      }
      contextSwitches := contextSwitches + 1;
      TaskSwitch(next);
    }

    // ---------------------------------------------------------------- ticks and sleep

    // The wake-up loop of scheduler_tick.
    method WakeSleepers()
      requires Valid()
      modifies all`state, all`wake
      ensures Valid() && Abs() == old(Abs()).(tasks := WakeAll(old(Abs()).tasks, queue, ticks))
    {
      hide QueueOk, KidsOk, Closed, Abs, WakeAll;
      ghost var s := Abs();
      AbsAt(kernel);
      WakeNone(s.tasks, queue, ticks);
      QueueEnds();
      if readyQueue == null {
        return;
      }
      var task: Task := readyQueue;
      ghost var i := 0;
      while true
        invariant 0 <= i < |queue| && task == queue[i] && Valid()
        invariant Abs() == s.(tasks := WakeAll(s.tasks, queue[..i], ticks))
        decreases |queue| - i
      {
        QueueNext(i);
        AbsAt(task);
        QueueEnds();
        WakeNext(s.tasks, queue, i, ticks);
        if task.state == Sleeping && task.wake > 0 && ticks >= task.wake {
          SetWake(task, Ready, 0);
        }
        QueueNext(i);
        task := task.next;
        i := i + 1;
        if task == readyQueue {
          break;
        }
      }
      assert queue[..|queue|] == queue;
    }

    /** scheduler_tick is the tick step of the task system. */
    method Tick()
      requires Valid()
      modifies this`ticks, this`current, this`readyTasks, this`blockedTasks, this`contextSwitches
      modifies all`state, all`slice, all`total, all`wake
      ensures Valid() && Counted() == old(Counted()) && Abs() == Tasks.Tick(old(Abs()))
    {
      hide QueueOk, KidsOk, Closed, Abs, WakeAll, Tasks.Schedule;
      ghost var s := Abs();
      AbsAt(current);
      AdvanceClock();
      AbsAt(current);
      WakeSleepers();
      assert Abs() == s.(ticks := (s.ticks + 1) % TWO_32, tasks := WakeAll(s.tasks, s.queue, (s.ticks + 1) % TWO_32));
      AbsAt(current);
      if current.state == Running {
        Spend();
        AbsAt(current);
        if current.slice == 0 {
          Schedule();
        }
      }
    }

    // The running task uses up one tick of its slice.
    method Spend()
      requires Valid()
      modifies current`slice, current`total
      ensures Valid() && current in old(Abs()).tasks
      ensures Abs() == old(Abs()).(tasks := old(Abs()).tasks[current := Spent(old(Abs()).tasks[current])])
    {
      hide QueueOk, KidsOk, Closed, Abs;
      AbsAt(current);
      SameUpdate(Abs().tasks, current);
      if current.slice > 0 {
        SetSlice(current, current.slice - 1, (current.total + 1) % TWO_32);
      }
    }

    method AdvanceClock()
      requires Valid()
      modifies this`ticks
      ensures Valid() && Abs() == old(Abs()).(ticks := (old(ticks) + 1) % TWO_32) && ticks == (old(ticks) + 1) % TWO_32
    {
      hide QueueOk, KidsOk, Closed;
      ticks := (ticks + 1) % TWO_32;
    }

    /** task_sleep, task_block and task_exit of the current task are steps of the system. */
    method Sleep(ms: nat)
      requires Valid()
      modifies this`current, this`readyTasks, this`blockedTasks, this`contextSwitches
      modifies all`state, all`slice, all`total, all`wake
      ensures Valid() && Counted() == old(Counted()) && Abs() == Tasks.Sleep(old(Abs()), ms)
    {
      hide QueueOk, KidsOk, Closed, Abs, Tasks.Schedule;
      AbsAt(current);
      SetWake(current, Sleeping, (ticks + ms) % TWO_32);
      Schedule();
    }

    method Block()
      requires Valid()
      modifies this`current, this`readyTasks, this`blockedTasks, this`contextSwitches
      modifies all`state, all`slice, all`total
      ensures Valid() && Counted() == old(Counted()) && Abs() == Tasks.Block(old(Abs()))
    {
      hide QueueOk, KidsOk, Closed, Abs, Tasks.Schedule;
      AbsAt(current);
      SetState(current, Blocked);
      Schedule();
    }

    // task_unblock.
    method Unblock(t: Task)
      requires Valid() && t in all
      modifies t`state
      ensures Valid() && t in old(Abs()).tasks
      ensures Abs() == old(Abs()).(tasks := Unblocked(old(Abs()).tasks, Some(t)))
    {
      hide QueueOk, KidsOk, Closed, Abs;
      AbsAt(t);
      if t.state == Blocked {
        SetState(t, Ready);
      }
    }

    method Exit(code: int)
      requires Valid()
      modifies this`current, this`readyTasks, this`blockedTasks, this`contextSwitches
      modifies all`state, all`slice, all`total, all`code
      ensures Valid() && Counted() == old(Counted()) && Abs() == Tasks.Exit(old(Abs()), code)
    {
      hide QueueOk, KidsOk, Closed, Abs, Tasks.Schedule;
      AbsAt(current);
      if current == kernel {
        return;
      }
      ParentExists(current);
      SetDead(current, code);
      if current.parent != null {
        AbsAt(current.parent);
      }
      if current.parent != null && current.parent.state == Blocked {
        Unblock(current.parent);
      }
      Schedule();
    }

    lemma ParentExists(t: Task)
      requires Valid() && t in all
      ensures t.parent != null ==> t.parent in all
    {
      assert KidsOf(t);
    }

    // ---------------------------------------------------------------- the queue

    /** The scan of scheduler_add_task. */
    method InQueue(t: Task) returns (found: bool)
      requires Valid()
      ensures found <==> t in queue
    {
      hide QueueOk, KidsOk, Closed, NoRepeats;
      QueueEnds();
      if readyQueue == null {
        return false;
      }
      var curr: Task := readyQueue;
      ghost var i := 0;
      while true
        invariant 0 <= i < |queue| && curr == queue[i]
        invariant forall j :: 0 <= j < i ==> queue[j] != t
        decreases |queue| - i
      {
        QueueNext(i);
        if curr == t {
          return true;
        }
        curr := curr.next;
        i := i + 1;
        if curr == readyQueue {
          break;
        }
      }
      return false;
    }

    /** scheduler_add_task: a new task goes to the end of the queue and is READY; the kernel
        task, a queued task and NULL change nothing. */
    method AddTask(t: Task?)
      requires Valid() && (t != null ==> t in all)
      modifies this`readyQueue, this`tail, this`queue, this`totalTasks, all`next, all`state
      ensures Valid() && (t == null ==> Abs() == old(Abs()) && totalTasks == old(totalTasks))
      ensures t != null ==> t in old(Abs()).tasks && Abs() == Add(old(Abs()), t)
      ensures t != null ==> totalTasks == old(totalTasks) + if t == kernel || t in old(queue) then 0 else 1
      ensures old(Counted()) ==> Counted()
    {
      hide QueueOk, KidsOk, Closed, Abs;
      if t == null || t == kernel {
        if t != null {
          AbsAt(t);
        }
        return;
      }
      AbsAt(t);
      var found := InQueue(t);
      if found {
        return;
      }
      Append(t);
      SetState(t, Ready);
      totalTasks := totalTasks + 1;
    }

    method Append(t: Task)
      requires Valid() && t in all && t != kernel && t !in queue
      modifies this`readyQueue, this`tail, this`queue, all`next
      ensures Valid() && queue == old(queue) + [t] && Abs() == old(Abs()).(queue := queue)
    {
      hide KidsOk, QueueOk, Closed, Blocks;
      LinkLast(t);
    }

    method LinkLast(t: Task)
      requires QueueOk() && t in all && t != kernel && t !in queue
      modifies this`readyQueue, this`tail, this`queue, all`next
      ensures QueueOk() && queue == old(queue) + [t]
    {
      if readyQueue == null {
        readyQueue, tail := t, t;
        t.next := t;
      } else {
        tail.next := t;
        tail := t;
        t.next := readyQueue;
      }
      queue := queue + [t];
    }

    // The task before t in the queue, or the last one if t is not queued.
    method FindPrevious(t: Task) returns (prev: Task, ghost k: nat)
      requires Valid() && readyQueue != null && readyQueue != t
      ensures k < |queue| && prev == queue[k]
      ensures if t in queue then k + 1 < |queue| && queue[k + 1] == t && prev.next == t else prev.next == readyQueue
    {
      hide QueueOk, KidsOk, Closed, NoRepeats;
      QueueEnds();
      prev := readyQueue;
      k := 0;
      QueueNext(k);
      while prev.next != t && prev.next != readyQueue
        invariant k < |queue| && prev == queue[k] && prev.next != null
        invariant forall j :: 0 <= j <= k ==> queue[j] != t
        invariant k + 1 < |queue| ==> prev.next == queue[k + 1] && queue[k + 1] != readyQueue
        invariant k + 1 == |queue| ==> prev.next == readyQueue
        decreases |queue| - k
      {
        prev := prev.next;
        k := k + 1;
        QueueNext(k);
      }
    }

    /** scheduler_remove_task: a queued task leaves the queue and the others keep their
        order.  The counter goes down also for a task that is not queued, so it stays equal
        to the length of the queue exactly when the task was queued or the queue empty. */
    method RemoveTask(t: Task?)
      requires Valid() && (t != null ==> t in all)
      modifies this`readyQueue, this`tail, this`queue, this`totalTasks, all`next
      ensures Valid() && Abs() == old(Abs()).(queue := queue)
      ensures if t == null then queue == old(queue) else Removed(old(queue), queue, t)
      ensures old(Counted()) ==> (Counted() <==> t == null || t in old(queue) || old(queue) == [])
    {
      hide KidsOk, Closed, Abs, QueueOk, NoRepeats, Removed;
      QueueEnds();
      AbsAt(kernel);
      if t == null || readyQueue == null {
        if t != null {
          RemovedAt(queue, queue, t, 0);
        }
        return;
      }
      ghost var before, at := queue, 0;
      if readyQueue == t {
        RemoveHead();
      } else {
        var prev, k := FindPrevious(t);
        at := k + 1;
        if prev.next == t {
          RemoveAfter(prev, t, k);
        }
      }
      RemovedAt(before, queue, t, at);
      ClearNext(t);
      if totalTasks > 0 {
        totalTasks := totalTasks - 1;
      }
    }

    method RemoveHead()
      requires Valid() && readyQueue != null
      modifies this`readyQueue, this`tail, this`queue, all`next
      ensures Valid() && |old(queue)| > 0 && queue == old(queue)[1..] && Abs() == old(Abs()).(queue := queue)
    {
      hide KidsOk, QueueOk, Closed, Blocks;
      UnlinkHead();
    }

    method UnlinkHead()
      requires QueueOk() && readyQueue != null
      modifies this`readyQueue, this`tail, this`queue, all`next
      ensures QueueOk() && |old(queue)| > 0 && queue == old(queue)[1..]
    {
      if readyQueue == tail {
        assert |queue| == 1;
        readyQueue, tail := null, null;
      } else {
        assert queue[0].next == queue[1];
        tail.next := readyQueue.next;
        readyQueue := readyQueue.next;
      }
      queue := queue[1..];
    }

    method RemoveAfter(prev: Task, t: Task, ghost k: nat)
      requires Valid() && k + 1 < |queue| && queue[k] == prev && queue[k + 1] == t
      modifies this`tail, this`queue, all`next
      ensures Valid() && queue == old(queue)[..k + 1] + old(queue)[k + 2..] && Abs() == old(Abs()).(queue := queue)
    {
      hide KidsOk, QueueOk, Closed, Blocks;
      UnlinkAfter(prev, t, k);
    }

    method UnlinkAfter(prev: Task, t: Task, ghost k: nat)
      requires QueueOk() && k + 1 < |queue| && queue[k] == prev && queue[k + 1] == t
      modifies this`tail, this`queue, all`next
      ensures QueueOk() && queue == old(queue)[..k + 1] + old(queue)[k + 2..]
    {
      ghost var q := queue;
      prev.next := t.next;
      if t == tail {
        tail := prev;
      }
      queue := q[..k + 1] + q[k + 2..];
      RemoveOne(q, k + 1);
      assert forall i :: 0 <= i < |queue| ==> queue[i] == q[if i <= k then i else i + 1];
      hide NoRepeats;
    }

    method ClearNext(t: Task)
      requires Valid() && t in all && t !in queue
      modifies t`next
      ensures Valid() && Abs() == old(Abs())
    {
      hide KidsOk, Closed, Blocks, NoRepeats;
      t.next := null;
    }

    // ---------------------------------------------------------------- children

    // A new control block.
    method Allocate(pid: nat) returns (t: Task)
      requires QueueOk() && KidsOk()
      modifies this`all
      ensures fresh(t) && all == old(all) + {t} && QueueOk() && KidsOn(old(all)) && Blocks() == old(Blocks())
      ensures t.parent == null && t.firstChild == null
      ensures t.Block([]) == Tcb(pid, Ready, TIME_SLICE, 0, 0, None, [], 0, false)
    {
      hide Circle, Siblings, Blocks;
      t := new Task(pid);
      all := all + {t};
    }

    // The new task has no children.
    method Register(t: Task)
      requires kids.Keys + {t} == all && t !in kids && KidsOn(kids.Keys) && t.parent == null && t.firstChild == null
      requires QueueOk()
      modifies this`kids
      ensures QueueOk() && KidsOk() && kids.Keys == all && Blocks() == old(Blocks())[t := t.Block([])]
    {
      hide Siblings, Task.Block, QueueOk;
      ghost var was, a := kids, Blocks();
      kids := kids[t := []];
      SiblingsNone(t);
      forall q | q in was
        ensures KidsOf(q)
      {
        assert old(KidsOf(q));
      }
      assert forall q :: q in was ==> Blocks()[q] == a[q];
      NewEntry(a, Blocks(), t);
    }

    // A new task without parent and children.
    method NewTask(pid: nat) returns (t: Task)
      requires Valid()
      modifies this`all, this`kids
      ensures fresh(t) && all == old(all) + {t} && Valid() && t.parent == null && t != current && t !in old(Abs()).tasks
      ensures Abs()
              == old(Abs()).(tasks := old(Abs()).tasks[t := Tcb(pid, Ready, TIME_SLICE, 0, 0, None, [], 0, false)])
    {
      hide Closed, QueueOk, Task.Block, KidsOn, KidsOk, Blocks;
      t := Allocate(pid);
      Register(t);
    }

    // A task without parent is nobody's child.
    lemma NotListed(c: Task)
      requires KidsOk() && c in all && c.parent == null
      ensures Unlisted(c)
    {
      hide NoRepeats;
      forall q | q in all
        ensures c !in kids[q]
      {
        assert KidsOf(q);
      }
    }

    // Sets the parent of a task that is in no list of children.
    method SetParent(c: Task, p: Task?)
      requires Valid() && c in all && (p != null ==> p in all) && Unlisted(c)
      modifies c`parent
      ensures Valid() && c.parent == p && c in old(Abs()).tasks
      ensures Abs() == old(Abs()).(tasks := old(Abs()).tasks[c := old(Abs()).tasks[c].(parent := ParentOf(p))])
    {
      hide Closed, QueueOk, KidsOk, Blocks, Unlisted;
      WriteParent(c, p);
    }

    method WriteParent(c: Task, p: Task?)
      requires QueueOk() && KidsOk() && c in kids && (p != null ==> p in kids) && Unlisted(c)
      modifies c`parent
      ensures QueueOk() && KidsOk() && c.parent == p
      ensures Blocks() == old(Blocks())[c := old(Blocks())[c].(parent := ParentOf(p))]
    {
      hide QueueOk, Siblings;
      ghost var a := Blocks();
      c.parent := p;
      forall q | q in all
        ensures KidsOf(q)
      {
        assert old(KidsOf(q));
      }
      OneUpdated(a, Blocks(), c);
    }

    // The task is nobody's child.
    ghost predicate Unlisted(c: Task)
      reads this`kids
    {
      forall q :: q in kids ==> c !in kids[q]
    }

    /** task_add_child: the child comes first in the parent's list. */
    method AddChild(p: Task, c: Task)
      requires Valid() && p in all && c in all && c.parent == null && c != p
      modifies this`kids, c`parent, c`nextSibling, p`firstChild
      ensures Valid() && Abs() == old(Abs()).(tasks := Adopted(old(Abs()).tasks, p, c))
    {
      hide Closed, QueueOk, Siblings, KidsOk, KidsOn, Blocks;
      AbsAt(p);
      AbsAt(c);
      ghost var a := Abs().tasks;
      NotListed(c);
      SetParent(c, p);
      KidsHave(p);
      LinkFirst(p, c);
      Prepend(p, c);
      AdoptedIs(a, p, c);
    }

    method LinkFirst(p: Task, c: Task)
      requires QueueOk() && KidsOk() && p in all && c in all && c != p && Unlisted(c)
      modifies c`nextSibling, p`firstChild
      ensures QueueOk() && kids.Keys == all && KidsOn(all - {p}) && Siblings(c.nextSibling, kids[p], p)
      ensures p.firstChild == c && Blocks() == old(Blocks())
    {
      hide Siblings, QueueOk, Blocks;
      assert KidsOf(p);
      c.nextSibling := p.firstChild;
      p.firstChild := c;
      forall q | q in all && q != p
        ensures KidsOf(q)
      {
        assert old(KidsOf(q));
      }
    }

    method Prepend(p: Task, c: Task)
      requires kids.Keys == all && p in all && c in all && p != c && QueueOk()
      requires KidsOn(all - {p}) && Siblings(c.nextSibling, kids[p], p) && c !in kids[p]
      requires forall i :: 0 <= i < |kids[p]| ==> kids[p][i] in kids
      requires c.parent == p && p.firstChild == c && (p.parent != null ==> p.parent in all)
      modifies this`kids
      ensures QueueOk() && KidsOk() && kids.Keys == all
              && Blocks() == old(Blocks())[p := old(Blocks())[p].(children := [c] + old(Blocks())[p].children)]
    {
      hide Siblings, QueueOk;
      ghost var a := Blocks();
      SiblingsCons(c.nextSibling, kids[p], p, c);
      kids := kids[p := [c] + kids[p]];
      forall q | q in all && q != p
        ensures KidsOf(q)
      {
        assert old(KidsOf(q));
      }
      assert KidsOf(p);
      OneUpdated(a, Blocks(), p);
    }

    /** task_create: the new task is the current task's first child and not yet queued. */
    method Create(pid: nat) returns (t: Task)
      requires Valid()
      modifies this`all, this`kids, current`firstChild
      ensures fresh(t) && all == old(all) + {t} && Valid() && Counted() == old(Counted()) && t !in old(Abs()).tasks
      ensures Abs() == Tasks.Create(old(Abs()), t, pid)
    {
      hide Closed, QueueOk, KidsOk, Abs;
      t := NewTask(pid);
      AbsAt(current);
      AbsAt(t);
      AddChild(current, t);
    }

    // The position of a child in its parent's list, and the child before it.
    method FindChild(p: Task, c: Task) returns (found: bool, prev: Task?, ghost k: nat)
      requires Valid() && p in all
      ensures found <==> c in kids[p]
      ensures found ==> k < |kids[p]| && kids[p][k] == c && prev == if k == 0 then null else kids[p][k - 1]
    {
      hide QueueOk, KidsOk, NoRepeats, Siblings;
      KidsHave(p);
      SiblingsHead(p.firstChild, kids[p], p);
      prev, k := null, 0;
      var curr := p.firstChild;
      while curr != null
        invariant k <= |kids[p]| && curr == (if k == |kids[p]| then null else kids[p][k])
        invariant prev == if k == 0 then null else kids[p][k - 1]
        invariant forall j :: 0 <= j < k ==> kids[p][j] != c
        decreases |kids[p]| - k
      {
        if curr == c {
          return true, prev, k;
        }
        SiblingsNext(p.firstChild, kids[p], p, k);
        prev, curr, k := curr, curr.nextSibling, k + 1;
      }
      found := false;
    }

    /** task_remove_child: the child leaves the list, the others keep their order. */
    method RemoveChild(p: Task, c: Task)
      requires Valid() && p in all && c in all && p != c
      modifies this`kids, kids[p]`nextSibling, c`parent, c`nextSibling, p`firstChild
      ensures Valid() && (c !in old(kids[p]) ==> Abs() == old(Abs()))
      ensures forall k :: 0 <= k < |old(kids[p])| && old(kids[p])[k] == c ==>
                Abs() == old(Abs()).(tasks := Orphaned(old(Abs()).tasks, p, c, k))
    {
      hide Closed, QueueOk, KidsOk, Siblings, KidsOn, NoRepeats, Unlisted, Abs;
      AbsAt(p);
      AbsAt(c);
      KidsHave(p);
      var found, prev, k := FindChild(p, c);
      if found {
        OnlyPlace(p, c, k);
        ghost var a := Abs().tasks;
        Detach(p, c, prev, k);
        SetParent(c, null);
        OrphanedIs(a, p, c, k);
      }
    }

    // Takes child k out of the list of p.
    method Detach(p: Task, c: Task, prev: Task?, ghost k: nat)
      requires Valid() && p in all && c in all && p != c
      requires k < |kids[p]| && kids[p][k] == c && prev == if k == 0 then null else kids[p][k - 1]
      modifies this`kids, kids[p]`nextSibling, c`nextSibling, p`firstChild
      ensures Valid() && Unlisted(c)
      ensures p in old(Abs()).tasks && c in old(Abs()).tasks && k < |old(Abs()).tasks[p].children|
      ensures var kp := old(Abs()).tasks[p].children;
              Abs() == old(Abs()).(
                tasks := old(Abs()).tasks[p := old(Abs()).tasks[p].(children := kp[..k] + kp[k + 1..])])
    {
      hide Closed, QueueOk, KidsOk, Siblings, KidsOn, Blocks, NoRepeats;
      AbsAt(p);
      AbsAt(c);
      KidsHave(p);
      OnlyPlace(p, c, k);
      ListsApart(p);
      UnlinkChild(p, c, prev, k);
      DropChild(p, k);
    }

    lemma OnlyPlace(p: Task, c: Task, k: nat)
      requires Valid() && p in all && k < |kids[p]| && kids[p][k] == c
      ensures forall j :: 0 <= j < |kids[p]| && kids[p][j] == c ==> j == k
    {
      KidsHave(p);
    }

    // Children of different parents are different.
    lemma ListsApart(p: Task)
      requires KidsOk() && p in all
      ensures forall q, i :: q in all && q != p && 0 <= i < |kids[q]| ==> kids[q][i] !in kids[p]
    {
      hide NoRepeats;
      assert KidsOf(p);
      forall q, i | q in all && q != p && 0 <= i < |kids[q]|
        ensures kids[q][i] !in kids[p]
      {
        assert KidsOf(q);
      }
    }

    method UnlinkChild(p: Task, c: Task, prev: Task?, ghost k: nat)
      requires QueueOk() && KidsOk() && p in all && c in all && p != c
      requires k < |kids[p]| && kids[p][k] == c && prev == if k == 0 then null else kids[p][k - 1]
      modifies kids[p]`nextSibling, c`nextSibling, p`firstChild
      ensures QueueOk() && kids.Keys == all && KidsOn(all - {p})
              && Siblings(p.firstChild, kids[p][..k] + kids[p][k + 1..], p)
      ensures Blocks() == old(Blocks())
    {
      hide Siblings, QueueOk, Blocks;
      ListsApart(p);
      assert KidsOf(p);
      CutSibling(p, c, prev, kids[p], k);
      forall q | q in all && q != p
        ensures KidsOf(q)
      {
        assert old(KidsOf(q));
      }
    }

    method DropChild(p: Task, ghost k: nat)
      requires QueueOk() && kids.Keys == all && p in all && k < |kids[p]|
      requires KidsOn(all - {p}) && Siblings(p.firstChild, kids[p][..k] + kids[p][k + 1..], p)
      requires forall i :: 0 <= i < |kids[p]| ==> kids[p][i] in kids
      requires p.parent != null ==> p.parent in all
      modifies this`kids
      ensures QueueOk() && KidsOk() && kids.Keys == all
              && kids == old(kids)[p := old(kids[p])[..k] + old(kids[p])[k + 1..]]
      ensures Blocks() == old(Blocks())[p := old(Blocks())[p].(children := old(kids[p])[..k] + old(kids[p])[k + 1..])]
    {
      hide Siblings, QueueOk;
      ghost var a := Blocks();
      kids := kids[p := kids[p][..k] + kids[p][k + 1..]];
      forall q | q in all && q != p
        ensures KidsOf(q)
      {
        assert old(KidsOf(q));
      }
      assert KidsOf(p);
      OneUpdated(a, Blocks(), p);
    }

    // ---------------------------------------------------------------- wait

    /** The scan of sys_wait: the first zombie child that has not been waited for. */
    method FindZombie() returns (c: Task?, ghost k: nat)
      requires Valid()
      ensures current in Abs().tasks && Abs().tasks[current].children == kids[current]
      ensures k == FirstZombie(Abs().tasks, kids[current])
      ensures c == if FirstZombie(Abs().tasks, kids[current]) == |kids[current]| then null
                   else kids[current][FirstZombie(Abs().tasks, kids[current])]
    {
      hide QueueOk, KidsOk, NoRepeats, Siblings, Abs, FirstZombie;
      ghost var tasks, mine := Abs().tasks, kids[current];
      AbsAt(current);
      KidsHave(current);
      SiblingsHead(current.firstChild, mine, current);
      c, k := current.firstChild, 0;
      while c != null
        invariant k <= |mine| && c == (if k == |mine| then null else mine[k])
        invariant forall j :: 0 <= j < k ==> tasks[mine[j]].state != Zombie || tasks[mine[j]].waited
        decreases |mine| - k
      {
        AbsAt(c);
        if c.state == Zombie && !c.waited {
          FirstZombieIs(tasks, mine, k);
          return;
        }
        SiblingsNext(current.firstChild, mine, current, k);
        c, k := c.nextSibling, k + 1;
      }
      FirstZombieIs(tasks, mine, k);
    }

    method SetWaited(t: Task)
      requires Valid() && t in all
      modifies t`waited
      ensures Valid() && Abs() == old(Abs()).(tasks := old(Abs()).tasks[t := old(Abs()).tasks[t].(waited := true)])
    {
      hide QueueOk, KidsOk, Closed;
      ghost var a := Abs().tasks;
      t.waited := true;
      assert forall p :: p in all && p != t ==> Abs().tasks[p] == a[p];
      OneUpdated(a, Abs().tasks, t);
    }

    /** sys_wait: one scan is the wait step of the task system; it returns the PID and the
        exit code of the reaped child. */
    method Wait() returns (w: Waited<Task>)
      requires Valid() && current.state == Running
      modifies this`kids, this`current, this`readyTasks, this`blockedTasks, this`contextSwitches
      modifies all`state, all`slice, all`total, all`waited, all`parent, all`firstChild, all`nextSibling
      ensures Valid() && Counted() == old(Counted())
      ensures Abs() == Tasks.Wait(old(Abs())).0 && w == Tasks.Wait(old(Abs())).1
    {
      hide QueueOk, KidsOk, NoRepeats, Siblings, Abs, Tasks.Wait, Tasks.Block, Closed, FirstZombie, ReapedTasks;
      AbsAt(current);
      KidsHave(current);
      SiblingsHead(current.firstChild, kids[current], current);
      WaitIs(Abs());
      if current.firstChild == null {
        return NoChildren;
      }
      var c, k := FindZombie();
      if c == null {
        Block();
        return Waiting;
      }
      AbsAt(c);
      w := Reaped(c, c.pid, c.code);
      Reap(c, k);
    }

    method Reap(c: Task, ghost k: nat)
      requires Valid() && c in all && c != current && k < |kids[current]| && kids[current][k] == c
      modifies this`kids, kids[current]`nextSibling, c`parent, c`nextSibling, c`waited, current`firstChild
      ensures Valid() && Abs() == old(Abs()).(tasks := ReapedTasks(old(Abs()).tasks, current, c, k))
    {
      hide QueueOk, KidsOk, NoRepeats, Siblings, Abs, Closed;
      AbsAt(current);
      AbsAt(c);
      SetWaited(c);
      RemoveChild(current, c);
    }
  }

  // The three outcomes of a scan.
  lemma WaitIs(s: Sys<Task>)
    requires Closed(s)
    ensures var kids := s.tasks[s.current].children;
            var k := FirstZombie(s.tasks, kids);
            && (kids == [] ==> Tasks.Wait(s) == (s, NoChildren))
            && (kids != [] && k == |kids| ==> Tasks.Wait(s) == (Tasks.Block(s), Waiting))
            && (k < |kids| && kids[k] != s.current ==>
                  Tasks.Wait(s) == (s.(tasks := ReapedTasks(s.tasks, s.current, kids[k], k)),
                                    Reaped(kids[k], s.tasks[kids[k]].pid, s.tasks[kids[k]].code)))
  {
    hide FirstZombie, Tasks.Block;
    var kids := s.tasks[s.current].children;
    var k := FirstZombie(s.tasks, kids);
    if k < |kids| && kids[k] != s.current {
      TwoUpdates(s.tasks, kids[k], s.tasks[kids[k]].(waited := true),
                 s.tasks[kids[k]].(waited := true, parent := None));
    }
  }

  // Child k of p has been waited for.
  ghost function ReapedTasks(a: map<Task, Tcb<Task>>, p: Task, c: Task, k: nat): map<Task, Tcb<Task>> {
    if c in a then Orphaned(a[c := a[c].(waited := true)], p, c, k) else a
  }

  lemma FirstZombieIs(tasks: map<Task, Tcb<Task>>, q: seq<Task>, k: nat)
    requires (forall i :: 0 <= i < |q| ==> q[i] in tasks) && k <= |q|
    requires forall i :: 0 <= i < k ==> tasks[q[i]].state != Zombie || tasks[q[i]].waited
    requires k < |q| ==> tasks[q[k]].state == Zombie && !tasks[q[k]].waited
    ensures FirstZombie(tasks, q) == k
  {
  }

  // Unlinks a child from the list of its siblings.
  method CutSibling(p: Task, c: Task, prev: Task?, ghost q: seq<Task>, ghost k: nat)
    requires Siblings(p.firstChild, q, p) && k < |q| && q[k] == c && prev == if k == 0 then null else q[k - 1]
    modifies q`nextSibling, c`nextSibling, p`firstChild
    ensures Siblings(p.firstChild, q[..k] + q[k + 1..], p) && c.nextSibling == null
  {
    if prev != null {
      prev.nextSibling := c.nextSibling;
    } else {
      p.firstChild := c.nextSibling;
    }
    c.nextSibling := null;
    RemoveOne(q, k);
    ghost var r := q[..k] + q[k + 1..];
    assert forall i :: 0 <= i < |r| ==> r[i] == q[if i < k then i else i + 1];
  }

  lemma SiblingsHead(head: Task?, c: seq<Task>, p: Task)
    requires Siblings(head, c, p)
    ensures head == if c == [] then null else c[0]
  {
  }

  lemma SiblingsNext(head: Task?, c: seq<Task>, p: Task, i: nat)
    requires Siblings(head, c, p) && i < |c|
    ensures c[i].nextSibling == if i + 1 == |c| then null else c[i + 1]
  {
  }

  lemma OrphanedIs(a: map<Task, Tcb<Task>>, p: Task, c: Task, k: nat)
    requires p in a && c in a && p != c && k < |a[p].children|
    ensures var b := a[p := a[p].(children := a[p].children[..k] + a[p].children[k + 1..])];
            Orphaned(a, p, c, k) == b[c := b[c].(parent := None)]
  {
  }

  // Child k leaves the list of p.
  ghost function Orphaned(a: map<Task, Tcb<Task>>, p: Task, c: Task, k: nat): map<Task, Tcb<Task>> {
    if p in a && c in a && k < |a[p].children| then
      var b := a[c := a[c].(parent := None)];
      b[p := a[p].(children := a[p].children[..k] + a[p].children[k + 1..])]
    else a
  }

  // How many tasks of q are in one of the states.
  ghost function CountIn(tasks: map<Task, Tcb<Task>>, q: seq<Task>, states: set<State>): nat {
    if q == [] then 0
    else
      var t := q[|q| - 1];
      CountIn(tasks, q[..|q| - 1], states) + if t in tasks && tasks[t].state in states then 1 else 0
  }

  lemma CountNone(tasks: map<Task, Tcb<Task>>, q: seq<Task>, states: set<State>)
    ensures CountIn(tasks, q[..0], states) == 0 && (q == [] ==> CountIn(tasks, q, states) == 0)
  {
  }

  lemma CountNext(tasks: map<Task, Tcb<Task>>, q: seq<Task>, i: nat, states: set<State>)
    requires i < |q|
    ensures CountIn(tasks, q[..i + 1], states)
            == CountIn(tasks, q[..i], states) + if q[i] in tasks && tasks[q[i]].state in states then 1 else 0
  {
    assert q[..i + 1][..i] == q[..i];
  }

  // The tasks with the old one back to READY if it was running.
  ghost function Demoted(a: map<Task, Tcb<Task>>, t: Task): map<Task, Tcb<Task>>
    ensures t in a ==> Demoted(a, t).Keys == a.Keys
  {
    if t in a && a[t].state == Running then Tasks.SetState(a, t, Ready) else a
  }

  lemma ScheduleIs(s: Sys<Task>, demoted: map<Task, Tcb<Task>>, next: Task)
    requires Closed(s)
    requires demoted == if s.tasks[s.current].state == Running then Tasks.SetState(s.tasks, s.current, Ready)
             else s.tasks
    requires next == Pick(demoted, s.queue, s.kernel)
    ensures next in demoted
    ensures Tasks.Schedule(s)
            == s.(tasks := demoted[next := demoted[next].(state := Running, slice := TIME_SLICE)], current := next)
  {
    PickExists(demoted, s.queue, s.kernel);
  }

  lemma WakeNone(tasks: map<Task, Tcb<Task>>, q: seq<Task>, now: nat)
    ensures WakeAll(tasks, q[..0], now) == tasks
  {
  }

  lemma WakeNext(tasks: map<Task, Tcb<Task>>, q: seq<Task>, i: nat, now: nat)
    requires i < |q| && q[i] in tasks && NoRepeats(q)
    ensures var a := WakeAll(tasks, q[..i], now);
            && q[i] in a && a[q[i]] == tasks[q[i]]
            && WakeAll(tasks, q[..i + 1], now) == a[q[i] := Woken(a[q[i]], now)]
  {
    assert q[..i + 1] == q[..i] + [q[i]];
    assert forall t :: t in q[..i + 1] <==> t in q[..i] || t == q[i];
    assert q[i] !in q[..i];
  }

  // b is a without t.
  ghost predicate Removed(a: seq<Task>, b: seq<Task>, t: Task) {
    && (t !in a ==> b == a)
    && forall k :: 0 <= k < |a| && a[k] == t ==> b == a[..k] + a[k + 1..]
  }

  lemma RemovedAt(a: seq<Task>, b: seq<Task>, t: Task, k: nat)
    requires NoRepeats(a)
    requires if t in a then k < |a| && a[k] == t && b == a[..k] + a[k + 1..] else b == a
    ensures Removed(a, b, t) && t !in b && |b| == |a| - if t in a then 1 else 0
  {
  }

  lemma RemoveOne(q: seq<Task>, k: nat)
    requires NoRepeats(q) && k < |q|
    ensures NoRepeats(q[..k] + q[k + 1..])
  {
  }

  lemma AdoptedIs(a: map<Task, Tcb<Task>>, p: Task, c: Task)
    requires p in a && c in a && p != c
    ensures var b := a[c := a[c].(parent := Some(p))];
            Adopted(a, p, c) == b[p := b[p].(children := [c] + b[p].children)]
  {
  }

  lemma NewEntry<T>(a: map<Task, T>, b: map<Task, T>, t: Task)
    requires b.Keys == a.Keys + {t} && t !in a && forall p :: p in a ==> b[p] == a[p]
    ensures b == a[t := b[t]]
  {
  }

  // c becomes the first child of p.
  ghost function Adopted(a: map<Task, Tcb<Task>>, p: Task, c: Task): map<Task, Tcb<Task>> {
    if p in a && c in a then a[p := a[p].(children := [c] + a[p].children)][c := a[c].(parent := Some(p))] else a
  }

  lemma SameUpdate<T>(a: map<Task, T>, t: Task)
    requires t in a
    ensures a[t := a[t]] == a
  {
  }

  lemma TwoUpdates<T>(a: map<Task, T>, t: Task, x: T, y: T)
    ensures a[t := x][t := y] == a[t := y]
  {
  }
}
