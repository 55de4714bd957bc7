/**
 The task state machine of kernel/scheduler.c, kernel/task.c and sys_wait on values: each
 step is one atomic transition of the whole system.
 */
module Tasks {

  const TIME_SLICE: nat := 10
  const TWO_32: nat := 0x1_0000_0000

  datatype State = Ready | Running | Blocked | Sleeping | Zombie

  datatype Option<T> = None | Some(value: T)

  datatype Tcb<T> = Tcb(pid: nat, state: State, slice: nat, total: nat, wake: nat,
                        parent: Option<T>, children: seq<T>, code: int, waited: bool)

  datatype Sys<T(==)> = Sys(tasks: map<T, Tcb<T>>, queue: seq<T>, current: T, kernel: T, ticks: nat)

  /** Every task that is mentioned exists. */
  ghost predicate Closed<T>(s: Sys<T>) {
    && s.kernel in s.tasks && s.current in s.tasks
    && (forall i :: 0 <= i < |s.queue| ==> s.queue[i] in s.tasks)
    && forall t :: t in s.tasks ==>
         && (s.tasks[t].parent.Some? ==> s.tasks[t].parent.value in s.tasks)
         && forall i :: 0 <= i < |s.tasks[t].children| ==> s.tasks[t].children[i] in s.tasks
  }

  ghost predicate NoRepeats<T>(q: seq<T>) {
    forall i, j :: 0 <= i < j < |q| ==> q[i] != q[j]
  }

  function SetState<T(==)>(tasks: map<T, Tcb<T>>, t: T, st: State): map<T, Tcb<T>>
    requires t in tasks
  {
    tasks[t := tasks[t].(state := st)]
  }

  // ---------------------------------------------------------------- picking and switching

  // get_next_ready_task: the first READY task of the queue, else the kernel task.
  ghost function Pick<T>(tasks: map<T, Tcb<T>>, queue: seq<T>, kernel: T): (r: T)
    requires forall i :: 0 <= i < |queue| ==> queue[i] in tasks
  {
    if queue == [] then kernel
    else if tasks[queue[0]].state == Ready then queue[0]
    else Pick(tasks, queue[1..], kernel)
  }

  // scheduler_schedule and task_switch: the running task goes back to READY, the picked
  // one runs with a new time slice.
  ghost function Schedule<T>(s: Sys<T>): (r: Sys<T>)
    requires Closed(s)
  {
    var demoted := if s.tasks[s.current].state == Running then SetState(s.tasks, s.current, Ready) else s.tasks;
    var next := Pick(demoted, s.queue, s.kernel);
    PickExists(demoted, s.queue, s.kernel);
    s.(tasks := demoted[next := demoted[next].(state := Running, slice := TIME_SLICE)], current := next)
  }

  lemma {:induction false} PickExists<T>(tasks: map<T, Tcb<T>>, queue: seq<T>, kernel: T)
    requires forall i :: 0 <= i < |queue| ==> queue[i] in tasks
    ensures Pick(tasks, queue, kernel) == kernel || Pick(tasks, queue, kernel) in queue
  {
    if queue != [] && tasks[queue[0]].state != Ready {
      PickExists(tasks, queue[1..], kernel);
    }
  }

  /** The pick is the first READY task in queue order, and the kernel task only if no
      queued task is READY. */
  lemma {:induction false} PickIsFirst<T>(tasks: map<T, Tcb<T>>, queue: seq<T>, kernel: T)
    requires forall i :: 0 <= i < |queue| ==> queue[i] in tasks
    ensures var r := Pick(tasks, queue, kernel);
            || (r == kernel && forall i :: 0 <= i < |queue| ==> tasks[queue[i]].state != Ready)
            || exists k :: 0 <= k < |queue| && r == queue[k] && tasks[r].state == Ready
                 && forall i :: 0 <= i < k ==> tasks[queue[i]].state != Ready
  {
    if queue != [] {
      if tasks[queue[0]].state == Ready {
        assert Pick(tasks, queue, kernel) == queue[0];
      } else {
        PickIsFirst(tasks, queue[1..], kernel);
        var r := Pick(tasks, queue[1..], kernel);
        if k :| 0 <= k < |queue[1..]| && r == queue[1..][k] && tasks[r].state == Ready
                && forall i :: 0 <= i < k ==> tasks[queue[1..][i]].state != Ready {
          assert forall i :: 0 < i < k + 1 ==> queue[i] == queue[1..][i - 1];
          assert queue[k + 1] == r;
        } else {
          assert forall i :: 0 < i < |queue| ==> queue[i] == queue[1..][i - 1];
        }
      }
    }
  }

  // ---------------------------------------------------------------- ticks and sleep

  // A queued sleeper whose time has come.
  function Woken<T>(c: Tcb<T>, now: nat): Tcb<T> {
    if c.state == Sleeping && c.wake > 0 && now >= c.wake then c.(state := Ready, wake := 0) else c
  }

  function WakeAll<T(==)>(tasks: map<T, Tcb<T>>, queue: seq<T>, now: nat): map<T, Tcb<T>> {
    map t | t in tasks :: if t in queue then Woken(tasks[t], now) else tasks[t]
  }

  // One tick of the running task's time slice.
  function Spent<T>(c: Tcb<T>): Tcb<T> {
    if c.slice > 0 then c.(slice := c.slice - 1, total := (c.total + 1) % TWO_32) else c
  }

  // scheduler_tick.
  ghost function Tick<T>(s: Sys<T>): (r: Sys<T>)
    requires Closed(s)
  {
    var now := (s.ticks + 1) % TWO_32;
    var woken := WakeAll(s.tasks, s.queue, now);
    var c := woken[s.current];
    if c.state != Running then s.(ticks := now, tasks := woken)
    else
      var spent := s.(ticks := now, tasks := woken[s.current := Spent(c)]);
      if Spent(c).slice == 0 then Schedule(spent) else spent
  }

  // task_sleep.
  ghost function Sleep<T>(s: Sys<T>, ms: nat): (r: Sys<T>)
    requires Closed(s)
  {
    var c := s.tasks[s.current];
    Schedule(s.(tasks := s.tasks[s.current := c.(state := Sleeping, wake := (s.ticks + ms) % TWO_32)]))
  }

  // task_block.
  ghost function Block<T>(s: Sys<T>): (r: Sys<T>)
    requires Closed(s)
  {
    Schedule(s.(tasks := SetState(s.tasks, s.current, Blocked)))
  }

  // ---------------------------------------------------------------- exit and wait

  // task_unblock.
  function Unblocked<T(==)>(tasks: map<T, Tcb<T>>, p: Option<T>): map<T, Tcb<T>>
    requires p.Some? ==> p.value in tasks
  {
    if p.Some? && tasks[p.value].state == Blocked then SetState(tasks, p.value, Ready) else tasks
  }

  // task_exit; the kernel task cannot exit.
  ghost function Exit<T>(s: Sys<T>, code: int): (r: Sys<T>)
    requires Closed(s)
  {
    if s.current == s.kernel then s
    else
      var c := s.tasks[s.current];
      var dead := s.tasks[s.current := c.(state := Zombie, code := code)];
      Schedule(s.(tasks := Unblocked(dead, c.parent)))
  }

  // What a scan of sys_wait comes to.
  datatype Waited<T> = NoChildren | Reaped(child: T, pid: nat, code: int) | Waiting

  // The index of the first zombie child that has not been waited for.
  ghost function FirstZombie<T>(tasks: map<T, Tcb<T>>, kids: seq<T>): (r: nat)
    requires forall i :: 0 <= i < |kids| ==> kids[i] in tasks
    ensures r <= |kids|
    ensures r < |kids| ==> tasks[kids[r]].state == Zombie && !tasks[kids[r]].waited
    ensures forall i :: 0 <= i < r ==> tasks[kids[i]].state != Zombie || tasks[kids[i]].waited
  {
    if kids == [] then 0
    else if tasks[kids[0]].state == Zombie && !tasks[kids[0]].waited then 0
    else
      var k := FirstZombie(tasks, kids[1..]);
      assert forall i :: 0 < i < |kids| ==> kids[i] == kids[1..][i - 1];
      k + 1
  }

  // One scan of sys_wait: reap the first zombie child, or block.
  ghost function Wait<T>(s: Sys<T>): (r: (Sys<T>, Waited<T>))
    requires Closed(s)
  {
    var me := s.tasks[s.current];
    var k := FirstZombie(s.tasks, me.children);
    if me.children == [] then (s, NoChildren)
    else if k == |me.children| then (Block(s), Waiting)
    else
      var child := me.children[k];
      var c := s.tasks[child];
      var marked := s.tasks[child := c.(waited := true, parent := None)];
      var tasks := marked[s.current := marked[s.current].(children := me.children[..k] + me.children[k + 1..])];
      (s.(tasks := tasks), Reaped(child, c.pid, c.code))
  }

  // ---------------------------------------------------------------- new tasks

  // task_init: the kernel task runs alone.
  ghost function Boot<T>(kernel: T): Sys<T> {
    Sys(map[kernel := Tcb(0, Running, 0, 0, 0, None, [], 0, false)], [], kernel, kernel, 0)
  }

  // task_create: a READY child of the current task, not yet queued.
  ghost function Create<T>(s: Sys<T>, t: T, pid: nat): (r: Sys<T>)
    requires Closed(s) && t !in s.tasks
  {
    var me := s.tasks[s.current];
    var new_ := Tcb(pid, Ready, TIME_SLICE, 0, 0, Some(s.current), [], 0, false);
    s.(tasks := s.tasks[s.current := me.(children := [t] + me.children)][t := new_])
  }

  // scheduler_add_task.
  ghost function Add<T>(s: Sys<T>, t: T): (r: Sys<T>)
    requires Closed(s) && t in s.tasks
  {
    if t == s.kernel || t in s.queue then s
    else s.(queue := s.queue + [t], tasks := SetState(s.tasks, t, Ready))
  }

  // ---------------------------------------------------------------- invariants

  /** Exactly the current task is RUNNING; it is the kernel task or queued; the queue has
      no repeats; tasks outside the queue have never run. */
  ghost predicate Scheduled<T>(s: Sys<T>) {
    && Closed(s) && NoRepeats(s.queue) && s.kernel !in s.queue
    && (s.current == s.kernel || s.current in s.queue)
    && (forall t :: t in s.tasks ==> (s.tasks[t].state == Running <==> t == s.current))
    && (forall t :: t in s.tasks && t != s.kernel && t !in s.queue ==> s.tasks[t].state == Ready)
    && s.tasks[s.kernel].state != Zombie
  }

  /** Children lists: a listed child knows its parent, is listed once and not waited for;
      a BLOCKED parent has children, and no zombie among them. */
  ghost predicate Family<T>(tasks: map<T, Tcb<T>>) {
    forall p :: p in tasks ==> FamilyOf(tasks, p)
  }

  ghost predicate FamilyOf<T>(tasks: map<T, Tcb<T>>, p: T)
    requires p in tasks
  {
    var kids := tasks[p].children;
    && NoRepeats(kids)
    && (forall i :: 0 <= i < |kids| ==> kids[i] in tasks && tasks[kids[i]].parent == Some(p) && !tasks[kids[i]].waited)
    && (tasks[p].state == Blocked ==> kids != [] && forall i :: 0 <= i < |kids| ==> tasks[kids[i]].state != Zombie)
  }

  ghost predicate Good<T>(s: Sys<T>) {
    Scheduled(s) && Family(s.tasks)
  }

  // The same tasks with the same relatives, and no task newly BLOCKED or ZOMBIE.
  ghost predicate Milder<T>(a: map<T, Tcb<T>>, b: map<T, Tcb<T>>) {
    && a.Keys == b.Keys
    && forall t :: t in a ==>
         && b[t].parent == a[t].parent && b[t].children == a[t].children && b[t].waited == a[t].waited
         && b[t].pid == a[t].pid && b[t].code == a[t].code
         && (b[t].state == Blocked ==> a[t].state == Blocked)
         && (b[t].state == Zombie <==> a[t].state == Zombie)
  }

  lemma MilderFamily<T>(a: map<T, Tcb<T>>, b: map<T, Tcb<T>>)
    requires Milder(a, b) && Family(a)
    ensures Family(b)
  {
    forall p | p in b
      ensures FamilyOf(b, p)
    {
      assert FamilyOf(a, p);
    }
  }

  // The running-task clauses that hold before the switch.
  ghost predicate Switchable<T>(s: Sys<T>) {
    && Closed(s) && NoRepeats(s.queue) && s.kernel !in s.queue
    && (forall t :: t in s.tasks && s.tasks[t].state == Running ==> t == s.current)
    && (forall t :: t in s.tasks && t != s.kernel && t !in s.queue ==> s.tasks[t].state == Ready)
    && s.tasks[s.kernel].state != Zombie
  }

  lemma ClosedAfter<T>(s: Sys<T>, r: Sys<T>)
    requires Closed(s) && Milder(s.tasks, r.tasks) && r.queue == s.queue && r.kernel == s.kernel && r.current in s.tasks
    ensures Closed(r)
  {
  }

  // What scheduler_schedule does to one task.
  lemma ScheduleAt<T>(s: Sys<T>, t: T)
    requires Switchable(s) && t in s.tasks
    ensures var r := Schedule(s);
            && r.current in s.tasks && r.tasks.Keys == s.tasks.Keys
            && (r.current == s.kernel || r.current in s.queue)
            && (r.current != s.kernel ==> s.tasks[r.current].state == Ready || s.tasks[r.current].state == Running)
            && (t == r.current ==> r.tasks[t] == s.tasks[t].(state := Running, slice := TIME_SLICE))
            && (t != r.current ==>
                r.tasks[t] == s.tasks[t].(state := if s.tasks[t].state == Running then Ready else s.tasks[t].state))
  {
    var demoted := if s.tasks[s.current].state == Running then SetState(s.tasks, s.current, Ready) else s.tasks;
    PickIsFirst(demoted, s.queue, s.kernel);
  }

  // The relation between the tasks before and after scheduler_schedule.
  ghost predicate Switched<T>(a: map<T, Tcb<T>>, b: map<T, Tcb<T>>, next: T) {
    && a.Keys == b.Keys && next in a
    && forall t :: t in a ==> b[t] == SwitchedTcb(a[t], t == next)
  }

  function SwitchedTcb<T>(c: Tcb<T>, chosen: bool): Tcb<T> {
    if chosen then c.(state := Running, slice := TIME_SLICE)
    else if c.state == Running then c.(state := Ready)
    else c
  }

  lemma ScheduleSwitches<T>(s: Sys<T>)
    requires Switchable(s)
    ensures var r := Schedule(s);
            && Switched(s.tasks, r.tasks, r.current)
            && (r.current == s.kernel || r.current in s.queue)
            && (r.current != s.kernel ==> s.tasks[r.current].state == Ready || s.tasks[r.current].state == Running)
            && r.queue == s.queue && r.kernel == s.kernel && r.ticks == s.ticks
  {
    var r := Schedule(s);
    assert r.queue == s.queue && r.kernel == s.kernel && r.ticks == s.ticks;
    hide NoRepeats, Closed, Schedule;
    KernelExists(s);
    ScheduleAt(s, s.kernel);
    forall t | t in s.tasks
      ensures r.tasks[t] == SwitchedTcb(s.tasks[t], t == r.current)
    {
      ScheduleAt(s, t);
    }
  }

  lemma SwitchedMilder<T>(a: map<T, Tcb<T>>, b: map<T, Tcb<T>>, next: T)
    requires Switched(a, b, next) && a[next].state != Zombie
    ensures Milder(a, b)
  {
  }

  /** After scheduler_schedule exactly one task is RUNNING, the current one; no task gets
      worse off than READY, and sleepers and zombies in the queue are left alone. */
  lemma ScheduleKeeps<T>(s: Sys<T>)
    requires Switchable(s)
    ensures Scheduled(Schedule(s)) && Milder(s.tasks, Schedule(s).tasks)
    ensures var r := Schedule(s);
            && r.queue == s.queue && r.kernel == s.kernel && r.ticks == s.ticks
            && forall t :: t in s.tasks && (s.tasks[t].state == Sleeping || s.tasks[t].state == Zombie)
                           && t != s.kernel ==>
                 r.tasks[t] == s.tasks[t]
  {
    hide NoRepeats, Closed, Schedule, Milder;
    KernelExists(s);
    ScheduleSwitches(s);
    var r := Schedule(s);
    SwitchedMilder(s.tasks, r.tasks, r.current);
    ClosedAfter(s, r);
  }

  lemma KernelExists<T>(s: Sys<T>)
    requires Closed(s)
    ensures s.kernel in s.tasks && s.current in s.tasks
  {
  }
}
