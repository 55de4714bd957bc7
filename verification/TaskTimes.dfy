/**
 Sleeping and waking: which steps move a task out of SLEEPING or BLOCKED, and when.
 */
module TaskTimes {
  import opened Tasks
  import opened TaskRuns
  import opened TaskTheorems

  /** After scheduler_schedule no queued task before the current one is READY, and none at
      all if the kernel task runs. */
  lemma RunsFirstReady<T>(s: Sys<T>)
    requires Switchable(s)
    ensures var r := Schedule(s);
            && (forall i :: 0 <= i < |r.queue| ==> r.queue[i] in r.tasks)
            && ((r.current == r.kernel && forall i :: 0 <= i < |r.queue| ==> r.tasks[r.queue[i]].state != Ready)
                || exists k :: 0 <= k < |r.queue| && r.current == r.queue[k]
                               && forall i :: 0 <= i < k ==> r.tasks[r.queue[i]].state != Ready)
  {
    var demoted := if s.tasks[s.current].state == Running then SetState(s.tasks, s.current, Ready) else s.tasks;
    PickIsFirst(demoted, s.queue, s.kernel);
  }

  // ---------------------------------------------------------------- sleepers

  // The sleeper is left alone by a step.
  ghost predicate Undisturbed<T>(s: Sys<T>, r: Sys<T>, t: T)
    requires t in s.tasks
  {
    t in r.queue && t in r.tasks && r.tasks[t] == s.tasks[t]
  }

  lemma SleeperSwitch<T>(a: Sys<T>, t: T)
    requires Switchable(a) && t in a.tasks && t in a.queue && a.tasks[t].state == Sleeping
    ensures Undisturbed(a, Schedule(a), t) && Schedule(a).ticks == a.ticks
  {
    hide Schedule;
    ScheduleKeeps(a);
  }

  lemma SleeperTick<T>(s: Sys<T>, t: T)
    requires Good(s) && t in s.tasks && t in s.queue && s.tasks[t].state == Sleeping
    ensures var r := Tick(s);
            && t in r.queue && t in r.tasks && r.ticks == (s.ticks + 1) % TWO_32
            && if 0 < s.tasks[t].wake <= r.ticks then r.tasks[t].state in {Ready, Running} else r.tasks[t] == s.tasks[t]
  {
    TickParts(s);
    var now := (s.ticks + 1) % TWO_32;
    var woken := WakeAll(s.tasks, s.queue, now);
    var spent := s.(ticks := now, tasks := woken[s.current := Spent(woken[s.current])]);
    assert spent.tasks[t] == Woken(s.tasks[t], now);
    hide Schedule, Tick, WakeAll, Closed, Family, Scheduled, Milder;
    if 0 < s.tasks[t].wake <= now {
      ScheduleSwitches(spent);
    } else {
      SleeperSwitch(spent, t);
    }
  }

  lemma SleeperOther<T>(s: Sys<T>, a: Action<T>, t: T)
    requires Good(s) && Enabled(s, a) && !a.OnTick? && t in s.tasks && t in s.queue && s.tasks[t].state == Sleeping
    ensures Undisturbed(s, Next(s, a), t) && Next(s, a).ticks == s.ticks
  {
    hide Schedule, Milder, NoRepeats;
    assert t != s.current;
    match a {
      case OnYield => SleeperSwitch(s, t);
      case OnSleep(ms) =>
        var c := s.tasks[s.current].(state := Sleeping, wake := (s.ticks + ms) % TWO_32);
        CurrentSwitchable(s, c);
        SleeperSwitch(s.(tasks := s.tasks[s.current := c]), t);
      case OnExit(code) =>
        ExitKeeps(s, code);
        if s.current != s.kernel {
          assert Dying(s, code).tasks[t] == s.tasks[t];
          SleeperSwitch(Dying(s, code), t);
        }
      case OnWait => SleeperWait(s, t);
      case OnCreate(_, _) =>
      case OnAdd(_) =>
    }
  }

  lemma SleeperWait<T>(s: Sys<T>, t: T)
    requires Good(s) && t in s.tasks && t in s.queue && s.tasks[t].state == Sleeping
    ensures Undisturbed(s, Wait(s).0, t) && Wait(s).0.ticks == s.ticks
  {
    hide Schedule, Milder, NoRepeats;
    assert FamilyOf(s.tasks, s.current);
    var me := s.tasks[s.current];
    var k := FirstZombie(s.tasks, me.children);
    if me.children != [] && k == |me.children| {
      var c := me.(state := Blocked);
      CurrentSwitchable(s, c);
      SleeperSwitch(s.(tasks := s.tasks[s.current := c]), t);
    }
  }

  // The number of ticks in a run.
  ghost function Ticks<T>(run: seq<Action<T>>): nat {
    if run == [] then 0 else (if run[0].OnTick? then 1 else 0) + Ticks(run[1..])
  }

  /** No queued sleeper wakes before its wake time: while the counter stays below it, the
      task is SLEEPING, whatever the other tasks do. */
  lemma {:induction false} NotBeforeWakeTime<T>(s: Sys<T>, run: seq<Action<T>>, t: T)
    requires Good(s) && CanRun(s, run) && t in s.tasks && t in s.queue && s.tasks[t].state == Sleeping
    requires s.ticks + Ticks(run) < TWO_32 && s.ticks + Ticks(run) < s.tasks[t].wake
    ensures Undisturbed(s, After(s, run), t) && After(s, run).ticks == s.ticks + Ticks(run)
    decreases |run|
  {
    hide Good, Next;
    if run != [] {
      StepGood(s, run[0]);
      SleeperNext(s, run[0], t);
      NotBeforeWakeTime(Next(s, run[0]), run[1..], t);
    }
  }

  lemma SleeperNext<T>(s: Sys<T>, a: Action<T>, t: T)
    requires Good(s) && Enabled(s, a) && t in s.tasks && t in s.queue && s.tasks[t].state == Sleeping
    ensures var r := Next(s, a);
            && t in r.queue && t in r.tasks && r.ticks == (if a.OnTick? then (s.ticks + 1) % TWO_32 else s.ticks)
            && if a.OnTick? && 0 < s.tasks[t].wake <= r.ticks then r.tasks[t].state in {Ready, Running}
            else r.tasks[t] == s.tasks[t]
  {
    hide Good, Tick;
    if a.OnTick? {
      SleeperTick(s, t);
    } else {
      SleeperOther(s, a, t);
    }
  }

  /** A sleeper whose wake time wrapped around to zero never wakes. */
  lemma {:induction false} WakeTimeZero<T>(s: Sys<T>, run: seq<Action<T>>, t: T)
    requires Good(s) && CanRun(s, run) && t in s.tasks && t in s.queue && s.tasks[t].state == Sleeping
             && s.tasks[t].wake == 0
    ensures Undisturbed(s, After(s, run), t)
    decreases |run|
  {
    hide Good, Next;
    if run != [] {
      StepGood(s, run[0]);
      SleeperNext(s, run[0], t);
      WakeTimeZero(Next(s, run[0]), run[1..], t);
    }
  }

  /** task_sleep(ms) of a queued task: at the next tick the task is still asleep if and only
      if more than one millisecond was asked for and the counter does not wrap around within
      it, or the wake time is zero, or the counter itself wraps around to zero. */
  lemma SleepThenTick<T>(s: Sys<T>, ms: nat)
    requires Good(s) && s.current != s.kernel && s.ticks < TWO_32 && ms < TWO_32
    ensures Good(Sleep(s, ms))
    ensures var r := Tick(Sleep(s, ms));
            && s.current in r.tasks
            && (r.tasks[s.current].state == Sleeping
                <==> (ms > 1 && s.ticks + ms < TWO_32) || s.ticks + ms == TWO_32
                     || s.ticks + ms == 0 || s.ticks + 1 == TWO_32)
  {
    hide Schedule, Tick, Milder, NoRepeats, Closed, Family, Scheduled;
    GoodCloses(s);
    AsleepAfter(s, ms);
    SleeperTick(Sleep(s, ms), s.current);
    WakeArithmetic(s.ticks, ms);
  }

  /** Five ticks before the counter wraps around, task_sleep(10) ends at the next tick. */
  lemma EarlyWakeExample<T>(s: Sys<T>)
    requires Good(s) && s.current != s.kernel && s.ticks == TWO_32 - 5
    ensures Good(Sleep(s, 10)) && s.current in Tick(Sleep(s, 10)).tasks
    ensures Tick(Sleep(s, 10)).tasks[s.current].state != Sleeping
  {
    hide Good, Sleep, Tick;
    SleepThenTick(s, 10);
  }

  lemma AsleepAfter<T>(s: Sys<T>, ms: nat)
    requires Good(s) && s.current != s.kernel
    ensures Good(Sleep(s, ms))
    ensures var r := Sleep(s, ms);
            && s.current in r.tasks && s.current in r.queue && r.ticks == s.ticks
            && r.tasks[s.current].state == Sleeping && r.tasks[s.current].wake == (s.ticks + ms) % TWO_32
  {
    hide Schedule, Milder, NoRepeats;
    SleepKeeps(s, ms);
    var c := s.tasks[s.current].(state := Sleeping, wake := (s.ticks + ms) % TWO_32);
    CurrentSwitchable(s, c);
    SleeperSwitch(s.(tasks := s.tasks[s.current := c]), s.current);
  }

  lemma WakeArithmetic(ticks: nat, ms: nat)
    requires ticks < TWO_32 && ms < TWO_32
    ensures 0 < (ticks + ms) % TWO_32 <= (ticks + 1) % TWO_32
            <==> !((ms > 1 && ticks + ms < TWO_32) || ticks + ms == TWO_32 || ticks + ms == 0 || ticks + 1 == TWO_32)
  {
    if ticks + ms >= TWO_32 {
      assert (ticks + ms) % TWO_32 == ticks + ms - TWO_32;
    }
  }

  /** A queued task that calls task_sleep(ms) sleeps through fewer than ms ticks, whatever
      else happens, as long as the tick counter does not wrap around. */
  lemma SleepsItsTime<T>(s: Sys<T>, ms: nat, run: seq<Action<T>>)
    requires Good(s) && s.current != s.kernel && s.ticks + ms < TWO_32 && Ticks(run) < ms
    requires CanRun(Sleep(s, ms), run)
    ensures var r := After(Sleep(s, ms), run);
            s.current in r.tasks && r.tasks[s.current].state == Sleeping && r.current != s.current
  {
    hide Closed, Family, CanRun, After, Scheduled, Sleep;
    GoodCloses(s);
    AsleepAfter(s, ms);
    NotBeforeWakeTime(Sleep(s, ms), run, s.current);
    RunGood(Sleep(s, ms), run);
    NextRunning(After(Sleep(s, ms), run));
  }

  lemma {:induction false} RunGood<T>(s: Sys<T>, run: seq<Action<T>>)
    requires Good(s) && CanRun(s, run)
    ensures Good(After(s, run))
    decreases |run|
  {
    hide Good, Next;
    if run != [] {
      StepGood(s, run[0]);
      RunGood(Next(s, run[0]), run[1..]);
    }
  }

  /** And at the tick that makes it ms, it is READY or RUNNING. */
  lemma WakesOnTime<T>(s: Sys<T>, ms: nat, run: seq<Action<T>>)
    requires Good(s) && s.current != s.kernel && s.ticks + ms < TWO_32 && Ticks(run) == ms - 1
    requires CanRun(Sleep(s, ms), run + [OnTick])
    ensures var r := After(Sleep(s, ms), run + [OnTick]);
            s.current in r.tasks && r.tasks[s.current].state in {Ready, Running}
  {
    hide Closed, Family, CanRun, After, Scheduled, Sleep, Tick;
    GoodCloses(s);
    AsleepAfter(s, ms);
    var a := Sleep(s, ms);
    AfterOneMore(a, run, OnTick);
    NotBeforeWakeTime(a, run, s.current);
    RunGood(a, run);
    SleeperTick(After(a, run), s.current);
  }

  lemma {:induction false} AfterOneMore<T>(s: Sys<T>, run: seq<Action<T>>, a: Action<T>)
    requires CanRun(s, run + [a])
    ensures CanRun(s, run) && Closed(After(s, run)) && Enabled(After(s, run), a)
            && After(s, run + [a]) == Next(After(s, run), a)
    decreases |run|
  {
    hide Next, Closed;
    if run == [] {
      assert run + [a] == [a] && [a][1..] == [];
    } else {
      assert (run + [a])[1..] == run[1..] + [a];
      AfterOneMore(Next(s, run[0]), run[1..], a);
    }
  }

  // ---------------------------------------------------------------- the head of the queue

  // The steps of a task that neither sleeps, waits nor exits.
  predicate Busy<T>(a: Action<T>) {
    a.OnTick? || a.OnYield? || a.OnCreate? || a.OnAdd?
  }

  // The switch goes back to the running head of the queue.
  lemma HeadPicked<T>(s: Sys<T>)
    requires Switchable(s) && s.queue != [] && s.current == s.queue[0] && s.tasks[s.current].state == Running
    ensures Schedule(s).current == s.queue[0] && Schedule(s).queue == s.queue
  {
    hide NoRepeats;
  }

  lemma HeadStep<T>(s: Sys<T>, a: Action<T>)
    requires Good(s) && Enabled(s, a) && Busy(a) && s.queue != [] && s.current == s.queue[0]
    ensures var r := Next(s, a);
            r.queue != [] && r.queue[0] == s.queue[0] && r.current == s.queue[0]
  {
    hide Schedule, Milder, NoRepeats, Family;
    match a {
      case OnTick =>
        TickParts(s);
        var now := (s.ticks + 1) % TWO_32;
        var woken := WakeAll(s.tasks, s.queue, now);
        var spent := s.(ticks := now, tasks := woken[s.current := Spent(woken[s.current])]);
        hide Tick, WakeAll;
        HeadPicked(spent);
      case OnYield => HeadPicked(s);
      case OnCreate(_, _) =>
      case OnAdd(_) =>
    }
  }

  /** The scheduler is not round-robin: while the task at the head of the queue runs, ticks,
      yields and new tasks never let another one run. */
  lemma {:induction false} HeadStarvesOthers<T>(s: Sys<T>, run: seq<Action<T>>)
    requires Good(s) && CanRun(s, run) && s.queue != [] && s.current == s.queue[0]
    requires forall i :: 0 <= i < |run| ==> Busy(run[i])
    ensures After(s, run).current == s.queue[0]
    decreases |run|
  {
    hide Good, Next;
    if run != [] {
      StepGood(s, run[0]);
      HeadStep(s, run[0]);
      HeadStarvesOthers(Next(s, run[0]), run[1..]);
    }
  }

  // ---------------------------------------------------------------- waiting parents

  /** The exit of a child wakes its BLOCKED parent. */
  lemma ExitWakesParent<T>(s: Sys<T>, code: int, p: T)
    requires Good(s) && s.current != s.kernel && s.tasks[s.current].parent == Some(p)
    ensures p in s.tasks && p in Exit(s, code).tasks
    ensures s.tasks[p].state == Blocked ==> Exit(s, code).tasks[p].state in {Ready, Running}
  {
    ExitKeeps(s, code);
    hide Schedule, Family, NoRepeats;
    ScheduleSwitches(Dying(s, code));
  }
}
