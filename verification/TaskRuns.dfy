/**
 Runs of the task state machine: what every step keeps, and what holds over whole runs.
 */
module TaskRuns {
  import opened Tasks

  // ---------------------------------------------------------------- every step keeps Good

  lemma WakeMilder<T>(tasks: map<T, Tcb<T>>, queue: seq<T>, now: nat)
    ensures Milder(tasks, WakeAll(tasks, queue, now))
  {
  }

  lemma MilderTrans<T>(a: map<T, Tcb<T>>, b: map<T, Tcb<T>>, c: map<T, Tcb<T>>)
    requires Milder(a, b) && Milder(b, c)
    ensures Milder(a, c)
  {
  }

  lemma SpentMilder<T>(tasks: map<T, Tcb<T>>, t: T)
    requires t in tasks
    ensures Milder(tasks, tasks[t := Spent(tasks[t])])
  {
  }

  // The state between the wake-ups of a tick and its switch.
  lemma TickParts<T>(s: Sys<T>)
    requires Good(s)
    ensures s.current in s.tasks
    ensures var now := (s.ticks + 1) % TWO_32;
            var woken := WakeAll(s.tasks, s.queue, now);
            var spent := s.(ticks := now, tasks := woken[s.current := Spent(woken[s.current])]);
            && woken[s.current] == s.tasks[s.current] && woken[s.current].state == Running
            && Milder(s.tasks, spent.tasks) && Switchable(spent) && Scheduled(spent)
            && Tick(s) == if Spent(woken[s.current]).slice == 0 then Schedule(spent) else spent
  {
    hide NoRepeats, Closed, Schedule, Milder, Family;
    KernelExists(s);
    var now := (s.ticks + 1) % TWO_32;
    var woken := WakeAll(s.tasks, s.queue, now);
    WakeMilder(s.tasks, s.queue, now);
    SpentMilder(woken, s.current);
    var spent := s.(ticks := now, tasks := woken[s.current := Spent(woken[s.current])]);
    MilderTrans(s.tasks, woken, spent.tasks);
    ClosedAfter(s, spent);
  }

  lemma TickKeeps<T>(s: Sys<T>)
    requires Good(s)
    ensures Good(Tick(s)) && Milder(s.tasks, Tick(s).tasks)
  {
    hide NoRepeats, Closed, Schedule, Milder, Family, Switchable, Tick;
    TickParts(s);
    var now := (s.ticks + 1) % TWO_32;
    var woken := WakeAll(s.tasks, s.queue, now);
    var spent := s.(ticks := now, tasks := woken[s.current := Spent(woken[s.current])]);
    ScheduleKeeps(spent);
    MilderTrans(s.tasks, spent.tasks, Schedule(spent).tasks);
    MilderFamily(s.tasks, Tick(s).tasks);
  }

  // The current task in another state, ready for the switch.
  lemma CurrentSwitchable<T>(s: Sys<T>, c: Tcb<T>)
    requires Scheduled(s) && s.current in s.tasks
    requires c.parent == s.tasks[s.current].parent && c.children == s.tasks[s.current].children
    requires c.state == Zombie ==> s.current != s.kernel
    ensures Switchable(s.(tasks := s.tasks[s.current := c])) && Closed(s.(tasks := s.tasks[s.current := c]))
  {
    hide NoRepeats;
  }

  lemma YieldKeeps<T>(s: Sys<T>)
    requires Good(s)
    ensures Good(Schedule(s)) && Milder(s.tasks, Schedule(s).tasks)
  {
    hide NoRepeats, Closed, Schedule, Milder, Family;
    ScheduleKeeps(s);
    MilderFamily(s.tasks, Schedule(s).tasks);
  }

  lemma SleepMilder<T>(tasks: map<T, Tcb<T>>, t: T, wake: nat)
    requires t in tasks && tasks[t].state == Running
    ensures Milder(tasks, tasks[t := tasks[t].(state := Sleeping, wake := wake)])
  {
  }

  lemma SleepKeeps<T>(s: Sys<T>, ms: nat)
    requires Good(s)
    ensures Good(Sleep(s, ms)) && Milder(s.tasks, Sleep(s, ms).tasks)
  {
    hide NoRepeats, Closed, Schedule, Milder, Family, Switchable;
    KernelExists(s);
    var c := s.tasks[s.current].(state := Sleeping, wake := (s.ticks + ms) % TWO_32);
    var a := s.(tasks := s.tasks[s.current := c]);
    CurrentSwitchable(s, c);
    SleepMilder(s.tasks, s.current, (s.ticks + ms) % TWO_32);
    ScheduleKeeps(a);
    MilderTrans(s.tasks, a.tasks, Schedule(a).tasks);
    MilderFamily(s.tasks, Schedule(a).tasks);
  }

  // Blocking a task none of whose children is a zombie.
  lemma BlockFamily<T>(tasks: map<T, Tcb<T>>, p: T)
    requires Family(tasks) && p in tasks && tasks[p].state == Running && tasks[p].children != []
    requires FirstZombieIn(tasks, p) == |tasks[p].children|
    ensures Family(SetState(tasks, p, Blocked))
  {
    var b := SetState(tasks, p, Blocked);
    forall q | q in b
      ensures FamilyOf(b, q)
    {
      assert FamilyOf(tasks, q);
    }
  }

  ghost function FirstZombieIn<T>(tasks: map<T, Tcb<T>>, p: T): nat
    requires Family(tasks) && p in tasks
  {
    assert FamilyOf(tasks, p);
    FirstZombie(tasks, tasks[p].children)
  }

  // A child dies and its BLOCKED parent wakes.
  lemma ExitFamily<T>(tasks: map<T, Tcb<T>>, t: T, code: int)
    requires Family(tasks) && t in tasks && tasks[t].state == Running
    requires tasks[t].parent.Some? ==> tasks[t].parent.value in tasks
    ensures Family(Unblocked(tasks[t := tasks[t].(state := Zombie, code := code)], tasks[t].parent))
  {
    var dead := tasks[t := tasks[t].(state := Zombie, code := code)];
    var b := Unblocked(dead, tasks[t].parent);
    forall p | p in b
      ensures FamilyOf(b, p)
    {
      assert FamilyOf(tasks, p);
    }
  }

  lemma UnblockSwitchable<T>(s: Sys<T>, p: Option<T>)
    requires Switchable(s) && (p.Some? ==> p.value in s.tasks)
    ensures Switchable(s.(tasks := Unblocked(s.tasks, p))) && Closed(s.(tasks := Unblocked(s.tasks, p)))
  {
    hide NoRepeats;
  }

  // The state of task_exit before the switch.
  ghost function Dying<T>(s: Sys<T>, code: int): (r: Sys<T>)
    requires Closed(s)
  {
    var c := s.tasks[s.current];
    s.(tasks := Unblocked(s.tasks[s.current := c.(state := Zombie, code := code)], c.parent))
  }

  lemma ExitKeeps<T>(s: Sys<T>, code: int)
    requires Good(s)
    ensures Good(Exit(s, code))
    ensures s.current != s.kernel ==> Switchable(Dying(s, code)) && Exit(s, code) == Schedule(Dying(s, code))
  {
    hide NoRepeats, Schedule, Milder, Family;
    if s.current != s.kernel {
      var c := s.tasks[s.current].(state := Zombie, code := code);
      CurrentSwitchable(s, c);
      UnblockSwitchable(s.(tasks := s.tasks[s.current := c]), c.parent);
      ExitFamily(s.tasks, s.current, code);
      hide Closed, Switchable, Unblocked;
      ScheduleKeeps(Dying(s, code));
      MilderFamily(Dying(s, code).tasks, Exit(s, code).tasks);
    }
  }

  // Reaping child k of p.
  ghost function ReapTasks<T>(tasks: map<T, Tcb<T>>, p: T, k: nat): map<T, Tcb<T>>
    requires p in tasks && k < |tasks[p].children| && tasks[p].children[k] in tasks
  {
    var kids := tasks[p].children;
    var marked := tasks[kids[k] := tasks[kids[k]].(waited := true, parent := None)];
    marked[p := marked[p].(children := kids[..k] + kids[k + 1..])]
  }

  lemma ReapAt<T>(tasks: map<T, Tcb<T>>, p: T, k: nat, t: T)
    requires p in tasks && k < |tasks[p].children| && tasks[p].children[k] in tasks && tasks[p].children[k] != p
             && t in tasks
    ensures var kids := tasks[p].children;
            var b := ReapTasks(tasks, p, k);
            && b.Keys == tasks.Keys
            && b[t] == if t == p then tasks[t].(children := kids[..k] + kids[k + 1..])
                       else if t == kids[k] then tasks[t].(waited := true, parent := None)
                       else tasks[t]
  {
  }

  lemma RemoveAt<T>(q: seq<T>, k: nat)
    requires k < |q| && NoRepeats(q)
    ensures var r := q[..k] + q[k + 1..];
            && NoRepeats(r) && |r| == |q| - 1
            && (forall i :: 0 <= i < |r| ==> r[i] == q[if i < k then i else i + 1])
            && forall i :: 0 <= i < |r| ==> r[i] != q[k]
  {
  }

  lemma ReapFamily<T>(tasks: map<T, Tcb<T>>, p: T, k: nat)
    requires Family(tasks) && p in tasks && k < |tasks[p].children| && tasks[p].state != Blocked
    requires tasks[p].children[k] in tasks && tasks[p].children[k] != p
    ensures Family(ReapTasks(tasks, p, k))
  {
    var b := ReapTasks(tasks, p, k);
    var kids := tasks[p].children;
    assert FamilyOf(tasks, p);
    RemoveAt(kids, k);
    forall q | q in b
      ensures FamilyOf(b, q)
    {
      ReapAt(tasks, p, k, q);
      assert FamilyOf(tasks, q);
      hide ReapTasks, NoRepeats;
      forall t | t in tasks
        ensures t != kids[k] ==>
                  b[t].parent == tasks[t].parent && b[t].waited == tasks[t].waited && b[t].state == tasks[t].state
      {
        ReapAt(tasks, p, k, t);
      }
    }
  }

  lemma ReapScheduled<T>(s: Sys<T>, k: nat)
    requires Good(s) && s.current in s.tasks && k < |s.tasks[s.current].children|
    requires s.tasks[s.current].children[k] in s.tasks && s.tasks[s.tasks[s.current].children[k]].state == Zombie
    ensures Scheduled(s.(tasks := ReapTasks(s.tasks, s.current, k)))
  {
    hide NoRepeats, Family, ReapTasks;
    var b := ReapTasks(s.tasks, s.current, k);
    forall t | t in s.tasks
      ensures t in b && b[t].state == s.tasks[t].state
      ensures b[t].parent == s.tasks[t].parent || b[t].parent == None
      ensures forall i :: 0 <= i < |b[t].children| ==> b[t].children[i] in s.tasks
    {
      ReapAt(s.tasks, s.current, k, t);
    }
    ReapAt(s.tasks, s.current, k, s.current);
  }

  /** One scan of sys_wait keeps every invariant; it blocks only when the caller has
      children and none of them is a zombie. */
  lemma WaitKeeps<T>(s: Sys<T>)
    requires Good(s)
    ensures Good(Wait(s).0)
  {
    hide NoRepeats, Schedule, Milder;
    assert FamilyOf(s.tasks, s.current);
    var me := s.tasks[s.current];
    var k := FirstZombie(s.tasks, me.children);
    if me.children != [] && k == |me.children| {
      var c := me.(state := Blocked);
      CurrentSwitchable(s, c);
      BlockFamily(s.tasks, s.current);
      hide Closed, Family, Switchable, Scheduled;
      var a := s.(tasks := s.tasks[s.current := c]);
      ScheduleKeeps(a);
      MilderFamily(a.tasks, Schedule(a).tasks);
    } else if me.children != [] {
      ReapScheduled(s, k);
      ReapFamily(s.tasks, s.current, k);
      assert Wait(s).0 == s.(tasks := ReapTasks(s.tasks, s.current, k));
    }
  }

  lemma CreateKeeps<T>(s: Sys<T>, t: T, pid: nat)
    requires Good(s) && t !in s.tasks
    ensures Good(Create(s, t, pid))
  {
    CreateScheduled(s, t, pid);
    CreateFamily(s, t, pid);
  }

  lemma CreateScheduled<T>(s: Sys<T>, t: T, pid: nat)
    requires Scheduled(s) && t !in s.tasks
    ensures Scheduled(Create(s, t, pid))
  {
    hide NoRepeats;
  }

  lemma CreateFamily<T>(s: Sys<T>, t: T, pid: nat)
    requires Closed(s) && Family(s.tasks) && t !in s.tasks && s.tasks[s.current].state != Blocked
    ensures Family(Create(s, t, pid).tasks)
  {
    var b := Create(s, t, pid);
    assert b.tasks[t].children == [] && b.tasks[t].parent == Some(s.current) && !b.tasks[t].waited
           && b.tasks[t].state == Ready;
    forall q | q in s.tasks
      ensures b.tasks[q] == if q == s.current then s.tasks[q].(children := [t] + s.tasks[q].children) else s.tasks[q]
      ensures FamilyOf(s.tasks, q)
    {
    }
    assert b.tasks.Keys == s.tasks.Keys + {t};
    hide Create, Family, Closed;
    forall q | q in b.tasks
      ensures FamilyOf(b.tasks, q)
    {
      if q == s.current {
        var kids := s.tasks[q].children;
        assert forall i :: 0 < i < |kids| + 1 ==> ([t] + kids)[i] == kids[i - 1];
      }
    }
    AllFamilies(b.tasks);
  }

  lemma AllFamilies<T>(tasks: map<T, Tcb<T>>)
    requires forall q :: q in tasks ==> FamilyOf(tasks, q)
    ensures Family(tasks)
  {
  }

  lemma AddKeeps<T>(s: Sys<T>, t: T)
    requires Good(s) && t in s.tasks
    ensures Good(Add(s, t)) && Milder(s.tasks, Add(s, t).tasks)
  {
    if t != s.kernel && t !in s.queue {
      assert Add(s, t).tasks == s.tasks by {
        assert s.tasks[t] == s.tasks[t].(state := Ready);
      }
    }
  }
}
