/**
 Turns: how long a task runs, what ends its turn, and in which order queued tasks get one.
 */
module TaskTurns {
  import opened Tasks
  import opened TaskRuns
  import opened TaskTheorems
  import opened TaskTimes

  // ---------------------------------------------------------------- ready tasks

  lemma ReadySwitch<T>(a: Sys<T>, t: T)
    requires Switchable(a) && t in a.tasks && a.tasks[t].state == Ready
    ensures var r := Schedule(a);
            t in r.tasks && r.queue == a.queue && r.tasks[t].state == if r.current == t then Running else Ready
  {
    hide Schedule;
    ScheduleSwitches(a);
  }

  /** No step takes a READY task out of its place in the queue, or leaves it anything but
      READY or RUNNING. */
  lemma ReadyStep<T>(s: Sys<T>, a: Action<T>, t: T)
    requires Good(s) && Enabled(s, a) && t in s.tasks && s.tasks[t].state == Ready
    ensures var r := Next(s, a);
            && t in r.tasks && r.tasks[t].state == (if r.current == t then Running else Ready)
            && |s.queue| <= |r.queue| && r.queue[..|s.queue|] == s.queue
  {
    hide Schedule, Milder, NoRepeats;
    assert t != s.current;
    match a {
      case OnTick => ReadyTick(s, t);
      case OnYield => ReadySwitch(s, t);
      case OnSleep(ms) =>
        var c := s.tasks[s.current].(state := Sleeping, wake := (s.ticks + ms) % TWO_32);
        CurrentSwitchable(s, c);
        ReadySwitch(s.(tasks := s.tasks[s.current := c]), t);
      case OnExit(code) =>
        ExitKeeps(s, code);
        if s.current != s.kernel {
          ReadySwitch(Dying(s, code), t);
        }
      case OnWait => ReadyWait(s, t);
      case OnCreate(_, _) =>
      case OnAdd(_) =>
    }
  }

  lemma ReadyTick<T>(s: Sys<T>, t: T)
    requires Good(s) && t in s.tasks && s.tasks[t].state == Ready
    ensures var r := Tick(s);
            t in r.tasks && r.tasks[t].state == (if r.current == t then Running else Ready) && r.queue == s.queue
  {
    TickParts(s);
    var now := (s.ticks + 1) % TWO_32;
    var woken := WakeAll(s.tasks, s.queue, now);
    var spent := s.(ticks := now, tasks := woken[s.current := Spent(woken[s.current])]);
    assert t != s.current && spent.tasks[t] == s.tasks[t];
    hide Schedule, Tick, WakeAll, Closed, Family, Scheduled, Milder;
    ReadySwitch(spent, t);
  }

  lemma ReadyWait<T>(s: Sys<T>, t: T)
    requires Good(s) && t in s.tasks && s.tasks[t].state == Ready
    ensures var r := Wait(s).0;
            t in r.tasks && r.tasks[t].state == (if r.current == t then Running else Ready) && r.queue == s.queue
  {
    hide Schedule, Milder, NoRepeats;
    assert FamilyOf(s.tasks, s.current);
    var me := s.tasks[s.current];
    var k := FirstZombie(s.tasks, me.children);
    if me.children != [] && k == |me.children| {
      var c := me.(state := Blocked);
      CurrentSwitchable(s, c);
      ReadySwitch(s.(tasks := s.tasks[s.current := c]), t);
    }
  }

  // t is the current task after none of the steps.
  ghost predicate NeverRuns<T>(s: Sys<T>, run: seq<Action<T>>, t: T)
    requires CanRun(s, run)
    decreases |run|
  {
    s.current != t && (run == [] || NeverRuns(Next(s, run[0]), run[1..], t))
  }

  /** A READY task stays READY, whatever happens, until it runs. */
  lemma {:induction false} ReadyUntilItRuns<T>(s: Sys<T>, run: seq<Action<T>>, t: T)
    requires Good(s) && CanRun(s, run) && t in s.tasks && s.tasks[t].state == Ready && NeverRuns(s, run, t)
    ensures var r := After(s, run);
            && t in r.tasks && r.tasks[t].state == Ready
            && |s.queue| <= |r.queue| && r.queue[..|s.queue|] == s.queue
    decreases |run|
  {
    hide Good, Next;
    if run != [] {
      StepGood(s, run[0]);
      ReadyStep(s, run[0], t);
      var q := Next(s, run[0]);
      ReadyUntilItRuns(q, run[1..], t);
      var r := After(s, run);
      assert r.queue[..|s.queue|] == r.queue[..|q.queue|][..|s.queue|];
    }
  }

  // ---------------------------------------------------------------- blocked tasks

  lemma BlockedSwitch<T>(a: Sys<T>, p: T)
    requires Switchable(a) && p in a.tasks && p != a.kernel && a.tasks[p].state == Blocked
    ensures var r := Schedule(a);
            p in r.tasks && r.tasks[p].state == Blocked && r.kernel == a.kernel
  {
    hide Schedule;
    ScheduleSwitches(a);
  }

  /** sys_wait without an exited child blocks: the caller does not run on, and stays BLOCKED,
      unless it is the kernel task and no other task is READY. */
  lemma WaitBlocks<T>(s: Sys<T>)
    requires Good(s) && Wait(s).1.Waiting?
    ensures var r := Wait(s).0;
            && s.current in r.tasks
            && r.tasks[s.current].state == (if r.current == s.current then Running else Blocked)
            && (r.current == s.current ==> s.current == s.kernel)
  {
    hide Schedule, Milder, NoRepeats, Family;
    var c := s.tasks[s.current].(state := Blocked);
    CurrentSwitchable(s, c);
    ScheduleSwitches(s.(tasks := s.tasks[s.current := c]));
  }

  // The step is the exit of a child of p.
  ghost predicate ChildExits<T>(s: Sys<T>, a: Action<T>, p: T)
    requires s.current in s.tasks
  {
    a.OnExit? && s.current != s.kernel && s.tasks[s.current].parent == Some(p)
  }

  /** A BLOCKED task is woken by the exit of one of its children, and by nothing else. */
  lemma BlockedStep<T>(s: Sys<T>, a: Action<T>, p: T)
    requires Good(s) && Enabled(s, a) && p in s.tasks && p != s.kernel && s.tasks[p].state == Blocked
    ensures s.current in s.tasks && p in Next(s, a).tasks && Next(s, a).kernel == s.kernel
    ensures Next(s, a).tasks[p].state == Blocked <==> !ChildExits(s, a, p)
  {
    hide Schedule, Milder, NoRepeats;
    assert p != s.current;
    match a {
      case OnTick => BlockedTick(s, p);
      case OnYield => BlockedSwitch(s, p);
      case OnSleep(ms) =>
        var c := s.tasks[s.current].(state := Sleeping, wake := (s.ticks + ms) % TWO_32);
        CurrentSwitchable(s, c);
        BlockedSwitch(s.(tasks := s.tasks[s.current := c]), p);
      case OnExit(code) => BlockedExit(s, code, p);
      case OnWait => BlockedWait(s, p);
      case OnCreate(_, _) =>
      case OnAdd(_) =>
    }
  }

  lemma BlockedTick<T>(s: Sys<T>, p: T)
    requires Good(s) && p in s.tasks && p != s.kernel && s.tasks[p].state == Blocked
    ensures p in Tick(s).tasks && Tick(s).tasks[p].state == Blocked && Tick(s).kernel == s.kernel
  {
    TickParts(s);
    var now := (s.ticks + 1) % TWO_32;
    var woken := WakeAll(s.tasks, s.queue, now);
    var spent := s.(ticks := now, tasks := woken[s.current := Spent(woken[s.current])]);
    assert p != s.current && spent.tasks[p] == s.tasks[p];
    hide Schedule, Tick, WakeAll, Closed, Family, Scheduled, Milder;
    BlockedSwitch(spent, p);
  }

  lemma BlockedExit<T>(s: Sys<T>, code: int, p: T)
    requires Good(s) && p in s.tasks && p != s.kernel && s.tasks[p].state == Blocked
    ensures s.current in s.tasks && p in Exit(s, code).tasks && Exit(s, code).kernel == s.kernel
    ensures Exit(s, code).tasks[p].state == Blocked <==> s.current == s.kernel || s.tasks[s.current].parent != Some(p)
  {
    ExitKeeps(s, code);
    if s.current != s.kernel {
      var d := Dying(s, code);
      assert d.tasks[p].state == if s.tasks[s.current].parent == Some(p) then Ready else Blocked;
      hide Schedule, Family, NoRepeats, Milder, Dying;
      if d.tasks[p].state == Blocked {
        BlockedSwitch(d, p);
      } else {
        ReadySwitch(d, p);
        ScheduleKeeps(d);
      }
    }
  }

  lemma BlockedWait<T>(s: Sys<T>, p: T)
    requires Good(s) && p in s.tasks && p != s.kernel && s.tasks[p].state == Blocked
    ensures p in Wait(s).0.tasks && Wait(s).0.tasks[p].state == Blocked && Wait(s).0.kernel == s.kernel
  {
    hide Schedule, Milder, NoRepeats;
    assert FamilyOf(s.tasks, s.current);
    var me := s.tasks[s.current];
    var k := FirstZombie(s.tasks, me.children);
    if me.children != [] && k == |me.children| {
      var c := me.(state := Blocked);
      CurrentSwitchable(s, c);
      BlockedSwitch(s.(tasks := s.tasks[s.current := c]), p);
    }
  }

  // None of the steps is the exit of a child of p.
  ghost predicate NoChildExits<T>(s: Sys<T>, run: seq<Action<T>>, p: T)
    requires CanRun(s, run)
    decreases |run|
  {
    run == [] || (!ChildExits(s, run[0], p) && NoChildExits(Next(s, run[0]), run[1..], p))
  }

  /** So in every run a task blocked in sys_wait stays BLOCKED until one of its children
      exits. */
  lemma {:induction false} BlockedUntilChildExits<T>(s: Sys<T>, run: seq<Action<T>>, p: T)
    requires Good(s) && CanRun(s, run) && p in s.tasks && p != s.kernel && s.tasks[p].state == Blocked
    requires NoChildExits(s, run, p)
    ensures p in After(s, run).tasks && After(s, run).tasks[p].state == Blocked
    decreases |run|
  {
    hide Good, Next, ChildExits;
    if run != [] {
      StepGood(s, run[0]);
      BlockedStep(s, run[0], p);
      BlockedUntilChildExits(Next(s, run[0]), run[1..], p);
    }
  }

  // ---------------------------------------------------------------- time slices

  ghost predicate OnlyTicks<T>(run: seq<Action<T>>) {
    forall i :: 0 <= i < |run| ==> run[i].OnTick?
  }

  lemma SpentOne<T>(c: Tcb<T>)
    requires c.slice > 1
    ensures Spent(c).slice == c.slice - 1 && (c.total + 1 < TWO_32 ==> Spent(c).total == c.total + 1)
  {
  }

  // One tick of a task with n ticks left.
  lemma SliceTick<T>(s: Sys<T>)
    requires Good(s)
    ensures Good(Tick(s)) && s.current in s.tasks && Tick(s).queue == s.queue && Tick(s).kernel == s.kernel
    ensures s.tasks[s.current].slice > 1 ==>
              && Tick(s).current == s.current && s.current in Tick(s).tasks
              && Tick(s).tasks[s.current].slice == s.tasks[s.current].slice - 1
              && (s.tasks[s.current].total + 1 < TWO_32 ==>
                    Tick(s).tasks[s.current].total == s.tasks[s.current].total + 1)
  {
    TickParts(s);
    TickKeeps(s);
    if s.tasks[s.current].slice > 1 {
      SpentOne(s.tasks[s.current]);
    }
    hide Schedule, WakeAll, Family, Milder, Tick, Spent;
    var now := (s.ticks + 1) % TWO_32;
    var woken := WakeAll(s.tasks, s.queue, now);
    ScheduleKeeps(s.(ticks := now, tasks := woken[s.current := Spent(woken[s.current])]));
  }

  /** A task runs on while its time slice lasts, each tick takes one from it and is added to
      its running time, and no other task u runs. */
  lemma {:induction false} SliceLasts<T>(s: Sys<T>, run: seq<Action<T>>, u: T)
    requires Good(s) && CanRun(s, run) && OnlyTicks(run)
    requires s.current in s.tasks && |run| < s.tasks[s.current].slice
    ensures var r := After(s, run);
            && Good(r) && r.current == s.current && r.queue == s.queue && r.kernel == s.kernel && s.current in r.tasks
            && r.tasks[s.current].slice == s.tasks[s.current].slice - |run|
            && (s.tasks[s.current].total + |run| < TWO_32 ==>
                  r.tasks[s.current].total == s.tasks[s.current].total + |run|)
    ensures u != s.current ==> NeverRuns(s, run, u)
    decreases |run|
  {
    hide Good, Tick;
    if run != [] {
      SliceTick(s);
      SliceLasts(Tick(s), run[1..], u);
    }
  }

  /** A new turn is ten ticks long. */
  lemma NewTurn<T>(s: Sys<T>)
    requires Switchable(s)
    ensures Schedule(s).current in Schedule(s).tasks && Schedule(s).tasks[Schedule(s).current].slice == 10
  {
    hide Schedule;
    ScheduleSwitches(s);
  }

  // The tick that uses up the slice switches to the first READY task.
  lemma LastTick<T>(s: Sys<T>, i: nat)
    requires Good(s) && s.current in s.tasks && s.tasks[s.current].slice <= 1
    requires i < |s.queue| && s.queue[i] in s.tasks && s.tasks[s.queue[i]].state == Ready
    ensures exists k :: 0 <= k <= i && Tick(s).current == s.queue[k]
  {
    TickParts(s);
    var now := (s.ticks + 1) % TWO_32;
    var woken := WakeAll(s.tasks, s.queue, now);
    var spent := s.(ticks := now, tasks := woken[s.current := Spent(woken[s.current])]);
    assert spent.tasks[s.queue[i]] == s.tasks[s.queue[i]];
    hide Schedule, Tick, WakeAll, Family, Milder;
    RunsFirstReady(spent);
    ReadySwitch(spent, s.queue[i]);
    ScheduleKeeps(spent);
  }

  /** When the slice is used up, a task that is READY further to the front of the queue, or
      anywhere in it if the kernel task was running, ends the turn: after as many ticks as the
      slice had, a task no further back than that one runs. */
  lemma SliceEnds<T>(s: Sys<T>, run: seq<Action<T>>, i: nat)
    requires Good(s) && CanRun(s, run) && OnlyTicks(run)
    requires s.current in s.tasks && |run| == s.tasks[s.current].slice > 0
    requires i < |s.queue| && s.queue[i] in s.tasks && s.tasks[s.queue[i]].state == Ready
    requires s.current == s.kernel || exists j :: i < j < |s.queue| && s.queue[j] == s.current
    ensures After(s, run).current != s.current
    ensures exists k :: 0 <= k <= i && After(s, run).current == s.queue[k]
  {
    var n := |run| - 1;
    assert run == run[..n] + [OnTick];
    forall k | 0 <= k <= i
      ensures s.queue[k] != s.current
    {
    }
    hide Good, Closed, CanRun, After, Tick, NeverRuns;
    AfterOneMore(s, run[..n], OnTick);
    SliceLasts(s, run[..n], s.queue[i]);
    ReadyUntilItRuns(s, run[..n], s.queue[i]);
    LastTick(After(s, run[..n]), i);
  }

  // ---------------------------------------------------------------- the order of the queue

  // The tasks added in a run, each where it was first added.
  ghost function Added<T>(run: seq<Action<T>>, kernel: T): seq<T> {
    if run == [] then []
    else
      var q := Added(run[..|run| - 1], kernel);
      var a := run[|run| - 1];
      if a.OnAdd? && a.t != kernel && a.t !in q then q + [a.t] else q
  }

  lemma QueueStep<T>(s: Sys<T>, a: Action<T>)
    requires Good(s) && Enabled(s, a)
    ensures Next(s, a).kernel == s.kernel
    ensures Next(s, a).queue == if a.OnAdd? && a.t != s.kernel && a.t !in s.queue then s.queue + [a.t] else s.queue
  {
    hide Schedule, NoRepeats, Family, Milder;
    match a {
      case OnTick => SliceTick(s);
      case OnYield => ScheduleKeeps(s);
      case OnSleep(ms) =>
        var c := s.tasks[s.current].(state := Sleeping, wake := (s.ticks + ms) % TWO_32);
        CurrentSwitchable(s, c);
        ScheduleKeeps(s.(tasks := s.tasks[s.current := c]));
      case OnExit(code) =>
        ExitKeeps(s, code);
        if s.current != s.kernel {
          ScheduleKeeps(Dying(s, code));
        }
      case OnWait =>
        var c := s.tasks[s.current].(state := Blocked);
        CurrentSwitchable(s, c);
        ScheduleKeeps(s.(tasks := s.tasks[s.current := c]));
      case OnCreate(_, _) =>
      case OnAdd(_) =>
    }
  }

  /** From boot on, the queue is the tasks added, in the order in which each was first added:
      nothing is lost from it and nothing overtakes. */
  lemma {:induction false} QueueIsAdded<T>(kernel: T, run: seq<Action<T>>)
    requires CanRun(Boot(kernel), run)
    ensures After(Boot(kernel), run).queue == Added(run, kernel) && After(Boot(kernel), run).kernel == kernel
    decreases |run|
  {
    if run != [] {
      var n := |run| - 1;
      assert run == run[..n] + [run[n]];
      BootGood(kernel);
      hide Good, Next, CanRun, After, Boot;
      AfterOneMore(Boot(kernel), run[..n], run[n]);
      QueueIsAdded(kernel, run[..n]);
      RunGood(Boot(kernel), run[..n]);
      QueueStep(After(Boot(kernel), run[..n]), run[n]);
    }
  }

  /** A task that the kernel task creates, adds and yields to runs at once if no task queued
      before it is READY. */
  lemma NewTaskRuns<T>(s: Sys<T>, t: T, pid: nat)
    requires Good(s) && t !in s.tasks && s.current == s.kernel
    requires forall i :: 0 <= i < |s.queue| ==> s.queue[i] in s.tasks && s.tasks[s.queue[i]].state != Ready
    ensures Closed(Create(s, t, pid)) && t in Create(s, t, pid).tasks && Closed(Add(Create(s, t, pid), t))
    ensures Schedule(Add(Create(s, t, pid), t)).current == t
  {
    CreateKeeps(s, t, pid);
    var a := Create(s, t, pid);
    AddKeeps(a, t);
    var b := Add(a, t);
    NewTaskQueued(s, t, pid);
    hide Create, Add, Schedule, Family, Milder, NoRepeats;
    FirstReadyRuns(b, |s.queue|);
  }

  // The first READY task runs if the running one is not in front of it.
  lemma FirstReadyRuns<T>(s: Sys<T>, i: nat)
    requires Switchable(s) && i < |s.queue| && s.queue[i] in s.tasks && s.tasks[s.queue[i]].state == Ready
    requires forall j :: 0 <= j < i ==> s.queue[j] in s.tasks && s.tasks[s.queue[j]].state !in {Ready, Running}
    ensures Schedule(s).current == s.queue[i]
  {
    RunsFirstReady(s);
    ReadySwitch(s, s.queue[i]);
    ScheduleSwitches(s);
    assert Schedule(s).queue[i] == s.queue[i];
    hide Schedule, Closed, Switchable, Switched;
  }

  lemma NewTaskQueued<T>(s: Sys<T>, t: T, pid: nat)
    requires Good(s) && t !in s.tasks
    ensures Closed(Create(s, t, pid)) && t in Create(s, t, pid).tasks
    ensures var b := Add(Create(s, t, pid), t);
            && b.queue == s.queue + [t] && b.kernel == s.kernel && b.current == s.current
            && t in b.tasks && b.tasks[t].state == Ready
            && forall q :: q in s.tasks ==> q in b.tasks && b.tasks[q].state == s.tasks[q].state
  {
    hide NoRepeats, Family;
  }
}
