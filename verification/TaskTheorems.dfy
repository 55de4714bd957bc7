/**
 Whole runs of the task system: safety in every reachable state, exit codes delivered
 once and unchanged, and sleep times.
 */
module TaskTheorems {
  import opened Tasks
  import opened TaskRuns

  // The steps of a run: the timer, the calls of the current task, and new tasks.
  datatype Action<T> =
    OnTick | OnYield | OnSleep(ms: nat) | OnExit(code: int) | OnWait | OnCreate(t: T, pid: nat) | OnAdd(t: T)

  ghost predicate Enabled<T>(s: Sys<T>, a: Action<T>) {
    match a
    case OnCreate(t, _) => t !in s.tasks
    case OnAdd(t) => t in s.tasks
    case _ => true
  }

  ghost function Next<T>(s: Sys<T>, a: Action<T>): Sys<T>
    requires Closed(s) && Enabled(s, a)
  {
    match a
    case OnTick => Tick(s)
    case OnYield => Schedule(s)
    case OnSleep(ms) => Sleep(s, ms)
    case OnExit(code) => Exit(s, code)
    case OnWait => Wait(s).0
    case OnCreate(t, pid) => Create(s, t, pid)
    case OnAdd(t) => Add(s, t)
  }

  // What has been observed: the tasks created, in order, the code each task exited with, and
  // what sys_wait returned.
  datatype Birth<T> = Birth(parent: T, child: T, pid: nat)
  datatype Reap<T> = Reap(parent: T, child: T, pid: nat, code: int)
  datatype Log<T> = Log(births: seq<Birth<T>>, exits: map<T, int>, reaps: seq<Reap<T>>)

  ghost function NextLog<T>(s: Sys<T>, l: Log<T>, a: Action<T>): Log<T>
    requires Closed(s)
  {
    match a
    case OnExit(code) => if s.current == s.kernel then l else l.(exits := l.exits[s.current := code])
    case OnWait =>
      var w := Wait(s).1;
      if w.Reaped? then l.(reaps := l.reaps + [Reap(s.current, w.child, w.pid, w.code)]) else l
    case OnCreate(t, pid) => l.(births := l.births + [Birth(s.current, t, pid)])
    case _ => l
  }

  /** Exactly the tasks that exited are zombies, with the code they gave; every return of
      sys_wait named an exited task, its PID and that code; none was returned twice. */
  ghost predicate Recorded<T>(s: Sys<T>, l: Log<T>) {
    && (forall t :: t in l.exits ==> t in s.tasks)
    && (forall t :: t in s.tasks ==> (s.tasks[t].state == Zombie <==> t in l.exits))
    && (forall t :: t in l.exits ==> s.tasks[t].code == l.exits[t])
    && (forall i :: 0 <= i < |l.reaps| ==> ReapOk(s, l, l.reaps[i]))
    && forall i, j :: 0 <= i < j < |l.reaps| ==> l.reaps[i].child != l.reaps[j].child
  }

  ghost predicate ReapOk<T>(s: Sys<T>, l: Log<T>, r: Reap<T>) {
    && r.child in s.tasks && r.child in l.exits
    && s.tasks[r.child].waited && r.pid == s.tasks[r.child].pid && r.code == l.exits[r.child]
  }

  // The facts about tasks that steps may only add to.
  ghost predicate SameRecord<T>(a: map<T, Tcb<T>>, b: map<T, Tcb<T>>) {
    forall t :: t in a ==>
      && t in b && b[t].pid == a[t].pid && b[t].code == a[t].code
      && (b[t].state == Zombie <==> a[t].state == Zombie) && (a[t].waited ==> b[t].waited)
  }

  lemma MilderRecord<T>(a: map<T, Tcb<T>>, b: map<T, Tcb<T>>)
    requires Milder(a, b)
    ensures SameRecord(a, b) && a.Keys == b.Keys
  {
  }

  lemma RecordKept<T>(s: Sys<T>, l: Log<T>, r: Sys<T>)
    requires Recorded(s, l) && SameRecord(s.tasks, r.tasks)
    requires forall t :: t in r.tasks && t !in s.tasks ==> r.tasks[t].state != Zombie
    ensures Recorded(r, l)
  {
    forall i | 0 <= i < |l.reaps|
      ensures ReapOk(r, l, l.reaps[i])
    {
      assert ReapOk(s, l, l.reaps[i]);
    }
  }

  // ---------------------------------------------------------------- steps

  lemma ExitRecorded<T>(s: Sys<T>, l: Log<T>, code: int)
    requires Good(s) && Recorded(s, l) && s.current != s.kernel
    ensures Recorded(Exit(s, code), l.(exits := l.exits[s.current := code]))
  {
    ExitKeeps(s, code);
    hide Schedule, Family, NoRepeats, Milder, Recorded;
    var d := Dying(s, code);
    DyingRecorded(s, l, code);
    ScheduleKeeps(d);
    MilderRecord(d.tasks, Schedule(d).tasks);
    RecordKept(d, l.(exits := l.exits[s.current := code]), Schedule(d));
  }

  lemma DyingRecorded<T>(s: Sys<T>, l: Log<T>, code: int)
    requires Good(s) && Recorded(s, l) && s.current != s.kernel
    ensures Recorded(Dying(s, code), l.(exits := l.exits[s.current := code]))
  {
    hide Family, NoRepeats;
    var d, m := Dying(s, code), l.(exits := l.exits[s.current := code]);
    assert s.current !in l.exits;
    forall i | 0 <= i < |m.reaps|
      ensures ReapOk(d, m, m.reaps[i])
    {
      assert ReapOk(s, l, l.reaps[i]);
    }
  }

  lemma WaitRecorded<T>(s: Sys<T>, l: Log<T>)
    requires Good(s) && Recorded(s, l)
    ensures Recorded(Wait(s).0, NextLog(s, l, OnWait))
  {
    hide NoRepeats, Schedule, Milder, Recorded;
    assert FamilyOf(s.tasks, s.current);
    var me := s.tasks[s.current];
    var k := FirstZombie(s.tasks, me.children);
    if me.children != [] && k == |me.children| {
      BlockRecord(s);
      hide Closed, Family, Scheduled;
      RecordKept(s, l, Block(s));
    } else if me.children != [] {
      ReapRecorded(s, l, k);
      assert Wait(s).0 == s.(tasks := ReapTasks(s.tasks, s.current, k));
    }
  }

  lemma BlockRecord<T>(s: Sys<T>)
    requires Good(s)
    ensures SameRecord(s.tasks, Block(s).tasks) && Block(s).tasks.Keys == s.tasks.Keys
  {
    hide NoRepeats, Family, SameRecord;
    var c := s.tasks[s.current].(state := Blocked);
    CurrentSwitchable(s, c);
    var a := s.(tasks := s.tasks[s.current := c]);
    BlockedRecord(s.tasks, s.current);
    hide Closed, Schedule, Milder;
    ScheduleKeeps(a);
    MilderRecord(a.tasks, Schedule(a).tasks);
    RecordTrans(s.tasks, a.tasks, Schedule(a).tasks);
  }

  lemma BlockedRecord<T>(tasks: map<T, Tcb<T>>, t: T)
    requires t in tasks && tasks[t].state != Zombie
    ensures SameRecord(tasks, SetState(tasks, t, Blocked))
  {
  }

  lemma RecordTrans<T>(a: map<T, Tcb<T>>, b: map<T, Tcb<T>>, c: map<T, Tcb<T>>)
    requires SameRecord(a, b) && SameRecord(b, c)
    ensures SameRecord(a, c)
  {
  }

  lemma ReapRecorded<T>(s: Sys<T>, l: Log<T>, k: nat)
    requires Good(s) && Recorded(s, l) && s.current in s.tasks && k < |s.tasks[s.current].children|
    requires var c := s.tasks[s.current].children[k]; c in s.tasks && s.tasks[c].state == Zombie && !s.tasks[c].waited
    ensures var c := s.tasks[s.current].children[k];
            Recorded(s.(tasks := ReapTasks(s.tasks, s.current, k)),
                     l.(reaps := l.reaps + [Reap(s.current, c, s.tasks[c].pid, s.tasks[c].code)]))
  {
    hide NoRepeats, Family, ReapTasks;
    var c := s.tasks[s.current].children[k];
    var r := s.(tasks := ReapTasks(s.tasks, s.current, k));
    forall t | t in s.tasks
      ensures t in r.tasks && r.tasks[t].state == s.tasks[t].state && r.tasks[t].code == s.tasks[t].code
              && r.tasks[t].pid == s.tasks[t].pid
      ensures r.tasks[t].waited == (s.tasks[t].waited || t == c)
    {
      ReapAt(s.tasks, s.current, k, t);
    }
    ReapAt(s.tasks, s.current, k, c);
    hide Scheduled;
    RecordKept(s, l, r);
    assert forall i :: 0 <= i < |l.reaps| ==> ReapOk(s, l, l.reaps[i]);
  }

  lemma CreateRecord<T>(s: Sys<T>, t: T, pid: nat)
    requires Closed(s) && t !in s.tasks
    ensures SameRecord(s.tasks, Create(s, t, pid).tasks)
    ensures forall q :: q in Create(s, t, pid).tasks && q !in s.tasks ==> Create(s, t, pid).tasks[q].state != Zombie
  {
  }

  // Creations are no part of the record.
  lemma BirthRecorded<T>(s: Sys<T>, l: Log<T>, births: seq<Birth<T>>)
    requires Recorded(s, l)
    ensures Recorded(s, l.(births := births))
  {
    forall i | 0 <= i < |l.reaps|
      ensures ReapOk(s, l.(births := births), l.reaps[i])
    {
      assert ReapOk(s, l, l.reaps[i]);
    }
  }

  /** Every step keeps the invariants and the record. */
  lemma StepKeeps<T>(s: Sys<T>, l: Log<T>, a: Action<T>)
    requires Good(s) && Recorded(s, l) && Enabled(s, a)
    ensures Good(Next(s, a)) && Recorded(Next(s, a), NextLog(s, l, a))
  {
    hide Scheduled, Family, Closed, Recorded, Milder, Tick, Schedule, Sleep, Exit, Wait, Create, Add, SameRecord;
    GoodCloses(s);
    match a {
      case OnTick =>
        TickKeeps(s);
        MilderRecord(s.tasks, Tick(s).tasks);
        RecordKept(s, l, Tick(s));
      case OnYield =>
        YieldKeeps(s);
        MilderRecord(s.tasks, Schedule(s).tasks);
        RecordKept(s, l, Schedule(s));
      case OnSleep(ms) =>
        SleepKeeps(s, ms);
        MilderRecord(s.tasks, Sleep(s, ms).tasks);
        RecordKept(s, l, Sleep(s, ms));
      case OnExit(code) =>
        ExitKeeps(s, code);
        if s.current == s.kernel {
          KernelStays(s, code);
        } else {
          ExitRecorded(s, l, code);
        }
      case OnWait =>
        WaitKeeps(s);
        WaitRecorded(s, l);
      case OnCreate(t, pid) =>
        CreateKeeps(s, t, pid);
        CreateRecord(s, t, pid);
        RecordKept(s, l, Create(s, t, pid));
        BirthRecorded(Create(s, t, pid), l, l.births + [Birth(s.current, t, pid)]);
      case OnAdd(t) =>
        AddKeeps(s, t);
        MilderRecord(s.tasks, Add(s, t).tasks);
        RecordKept(s, l, Add(s, t));
    }
  }

  lemma GoodCloses<T>(s: Sys<T>)
    requires Good(s)
    ensures Closed(s)
  {
  }

  lemma KernelStays<T>(s: Sys<T>, code: int)
    requires Closed(s) && s.current == s.kernel
    ensures Exit(s, code) == s
  {
  }

  // ---------------------------------------------------------------- runs

  ghost predicate CanRun<T>(s: Sys<T>, run: seq<Action<T>>)
    decreases |run|
  {
    run == [] || (Closed(s) && Enabled(s, run[0]) && CanRun(Next(s, run[0]), run[1..]))
  }

  ghost function After<T>(s: Sys<T>, run: seq<Action<T>>): Sys<T>
    requires CanRun(s, run)
    decreases |run|
  {
    if run == [] then s else After(Next(s, run[0]), run[1..])
  }

  ghost function LogAfter<T>(s: Sys<T>, l: Log<T>, run: seq<Action<T>>): Log<T>
    requires CanRun(s, run)
    decreases |run|
  {
    if run == [] then l else LogAfter(Next(s, run[0]), NextLog(s, l, run[0]), run[1..])
  }

  /** Every run keeps the invariants and the record. */
  lemma {:induction false} RunKeeps<T>(s: Sys<T>, l: Log<T>, run: seq<Action<T>>)
    requires Good(s) && Recorded(s, l) && CanRun(s, run)
    ensures Good(After(s, run)) && Recorded(After(s, run), LogAfter(s, l, run))
    decreases |run|
  {
    hide Good, Recorded, Next, NextLog;
    if run != [] {
      StepKeeps(s, l, run[0]);
      RunKeeps(Next(s, run[0]), NextLog(s, l, run[0]), run[1..]);
    }
  }

  /** In every state reachable from boot: exactly one task is RUNNING and it is the current
      one, which is the kernel task or queued; a BLOCKED parent has a child and no zombie
      child; and sys_wait has returned each child at most once, with its PID and the code
      it exited with. */
  lemma SafeFromBoot<T>(kernel: T, run: seq<Action<T>>)
    requires CanRun(Boot(kernel), run)
    ensures var s := After(Boot(kernel), run);
            && s.current in s.tasks && (s.current == s.kernel || s.current in s.queue)
            && (forall t :: t in s.tasks ==> (s.tasks[t].state == Running <==> t == s.current))
            && (forall p, i :: p in s.tasks && s.tasks[p].state == Blocked && 0 <= i < |s.tasks[p].children| ==>
                  s.tasks[p].children[i] in s.tasks && s.tasks[s.tasks[p].children[i]].state != Zombie)
            && (forall p :: p in s.tasks && s.tasks[p].state == Blocked ==> s.tasks[p].children != [])
    ensures var s, l := After(Boot(kernel), run), LogAfter(Boot(kernel), Log([], map[], []), run);
            && (forall i :: 0 <= i < |l.reaps| ==> ReapOk(s, l, l.reaps[i]))
            && forall i, j :: 0 <= i < j < |l.reaps| ==> l.reaps[i].child != l.reaps[j].child
  {
    BootGood(kernel);
    RunKeeps(Boot(kernel), Log([], map[], []), run);
    hide After, LogAfter, CanRun, Boot, NoRepeats, ReapOk;
    var s := After(Boot(kernel), run);
    assert forall p :: p in s.tasks ==> FamilyOf(s.tasks, p);
  }

  lemma BootGood<T>(kernel: T)
    ensures Good(Boot(kernel)) && Recorded(Boot(kernel), Log([], map[], []))
  {
  }

  // ---------------------------------------------------------------- zombies

  lemma ZombieStep<T>(s: Sys<T>, a: Action<T>, t: T)
    requires Good(s) && Enabled(s, a) && t in s.tasks && s.tasks[t].state == Zombie
    ensures var r := Next(s, a);
            t in r.tasks && r.tasks[t].state == Zombie && r.tasks[t].code == s.tasks[t].code && r.current != t
  {
    var l := Log([], map q | q in s.tasks && s.tasks[q].state == Zombie :: s.tasks[q].code, []);
    StepKeeps(s, l, a);
    assert t in l.exits && s.current != t;
    hide Next, Closed, Family;
    LogGrows(s, l, a, t);
    NextRunning(Next(s, a));
  }

  lemma LogGrows<T>(s: Sys<T>, l: Log<T>, a: Action<T>, t: T)
    requires Closed(s) && t in l.exits && t != s.current
    ensures t in NextLog(s, l, a).exits && NextLog(s, l, a).exits[t] == l.exits[t]
  {
  }

  lemma NextRunning<T>(s: Sys<T>)
    requires Good(s)
    ensures s.current in s.tasks && s.tasks[s.current].state == Running
  {
  }

  /** A zombie never runs again: it stays a zombie with its exit code, in every run. */
  lemma {:induction false} ZombieForever<T>(s: Sys<T>, run: seq<Action<T>>, t: T)
    requires Good(s) && CanRun(s, run) && t in s.tasks && s.tasks[t].state == Zombie
    ensures var r := After(s, run);
            t in r.tasks && r.tasks[t].state == Zombie && r.tasks[t].code == s.tasks[t].code && r.current != t
    decreases |run|
  {
    NextRunning(s);
    hide Good, Next;
    if run != [] {
      ZombieStep(s, run[0], t);
      StepGood(s, run[0]);
      ZombieForever(Next(s, run[0]), run[1..], t);
    }
  }

  lemma StepGood<T>(s: Sys<T>, a: Action<T>)
    requires Good(s) && Enabled(s, a)
    ensures Good(Next(s, a))
  {
    var l := Log([], map q | q in s.tasks && s.tasks[q].state == Zombie :: s.tasks[q].code, []);
    StepKeeps(s, l, a);
  }
}
