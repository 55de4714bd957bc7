/**
 Parents and children over whole runs: a task stays a child of the task that created it
 until sys_wait returns it, and what sys_wait answers depends on what was created, what
 exited and what was returned before.
 */
module TaskFamilies {
  import opened Tasks
  import opened TaskRuns
  import opened TaskTheorems

  // sys_wait has returned t.
  ghost predicate Returned<T>(reaps: seq<Reap<T>>, t: T) {
    exists i :: 0 <= i < |reaps| && reaps[i].child == t
  }

  // The tasks that p created and sys_wait has not returned, the newest first.
  ghost function Unreturned<T>(births: seq<Birth<T>>, reaps: seq<Reap<T>>, p: T): seq<T> {
    if births == [] then []
    else
      var b := births[|births| - 1];
      (if b.parent == p && !Returned(reaps, b.child) then [b.child] else [])
      + Unreturned(births[..|births| - 1], reaps, p)
  }

  // The new task has the PID given, and its creator as its parent until it is returned.
  ghost predicate BirthOk<T>(s: Sys<T>, l: Log<T>, b: Birth<T>) {
    && b.child in s.tasks && b.parent in s.tasks && b.child != s.kernel
    && s.tasks[b.child].pid == b.pid
    && s.tasks[b.child].parent == (if Returned(l.reaps, b.child) then None else Some(b.parent))
    && (s.tasks[b.child].waited <==> Returned(l.reaps, b.child))
  }

  ghost predicate OnceEach<T>(births: seq<Birth<T>>) {
    forall i, j :: 0 <= i < j < |births| ==> births[i].child != births[j].child
  }

  ghost predicate Born<T>(births: seq<Birth<T>>, t: T) {
    exists i :: 0 <= i < |births| && births[i].child == t
  }

  ghost predicate ReapedOwn<T>(births: seq<Birth<T>>, r: Reap<T>) {
    Birth(r.parent, r.child, r.pid) in births
  }

  /** Every task but the kernel's was created once; the children of each task are those it
      created that have not been returned, the newest first; and sys_wait returned tasks only
      to their creator. */
  ghost predicate Kin<T>(s: Sys<T>, l: Log<T>) {
    && (forall i :: 0 <= i < |l.births| ==> BirthOk(s, l, l.births[i]))
    && OnceEach(l.births)
    && (forall t :: t in s.tasks ==> t == s.kernel || Born(l.births, t))
    && (forall p :: p in s.tasks ==> s.tasks[p].children == Unreturned(l.births, l.reaps, p))
    && forall i :: 0 <= i < |l.reaps| ==> ReapedOwn(l.births, l.reaps[i])
  }

  // ---------------------------------------------------------------- the list of children

  lemma {:induction false} UnreturnedHas<T>(births: seq<Birth<T>>, reaps: seq<Reap<T>>, p: T, t: T)
    ensures t in Unreturned(births, reaps, p)
            <==> !Returned(reaps, t) && exists i :: 0 <= i < |births| && births[i].child == t && births[i].parent == p
  {
    if births != [] {
      var n := |births| - 1;
      UnreturnedHas(births[..n], reaps, p, t);
      assert births[n].child == t && births[n].parent == p ==>
          exists i :: 0 <= i < |births| && births[i].child == t && births[i].parent == p;
      if exists i :: 0 <= i < |births| && births[i].child == t && births[i].parent == p {
        var i :| 0 <= i < |births| && births[i].child == t && births[i].parent == p;
        if i < n {
          assert births[..n][i] == births[i];
        }
      }
    }
  }

  // A list without one element.
  function Without<T(==)>(q: seq<T>, t: T): seq<T> {
    if q == [] then [] else (if q[0] == t then [] else [q[0]]) + Without(q[1..], t)
  }

  lemma {:induction false} WithoutNone<T>(q: seq<T>, t: T)
    requires t !in q
    ensures Without(q, t) == q
  {
    if q != [] {
      WithoutNone(q[1..], t);
    }
  }

  lemma {:induction false} WithoutAt<T>(q: seq<T>, k: nat)
    requires k < |q| && NoRepeats(q)
    ensures Without(q, q[k]) == q[..k] + q[k + 1..]
  {
    assert NoRepeats(q[1..]);
    if k == 0 {
      assert q[0] !in q[1..];
      WithoutNone(q[1..], q[0]);
    } else {
      WithoutAt(q[1..], k - 1);
      assert q[..k] + q[k + 1..] == [q[0]] + (q[1..][..k - 1] + q[1..][k..]);
    }
  }

  lemma {:induction false} WithoutFirst<T>(a: seq<T>, q: seq<T>, t: T)
    requires |a| <= 1
    ensures Without(a + q, t) == (if a == [] || a[0] == t then [] else a) + Without(q, t)
  {
    if a != [] {
      assert (a + q)[1..] == q;
    } else {
      assert a + q == q;
    }
  }

  // Returning a task takes it out of the list.
  lemma {:induction false} UnreturnedReap<T>(births: seq<Birth<T>>, reaps: seq<Reap<T>>, r: Reap<T>, p: T)
    ensures Unreturned(births, reaps + [r], p) == Without(Unreturned(births, reaps, p), r.child)
  {
    if births != [] {
      var n := |births| - 1;
      var b := births[n];
      UnreturnedReap(births[..n], reaps, r, p);
      ReturnedMore(reaps, r, b.child);
      WithoutFirst(if b.parent == p && !Returned(reaps, b.child) then [b.child] else [],
                   Unreturned(births[..n], reaps, p), r.child);
    }
  }

  lemma ReturnedMore<T>(reaps: seq<Reap<T>>, r: Reap<T>, t: T)
    ensures Returned(reaps + [r], t) <==> Returned(reaps, t) || r.child == t
  {
    var m := reaps + [r];
    assert m[|reaps|] == r;
    if Returned(reaps, t) {
      var i :| 0 <= i < |reaps| && reaps[i].child == t;
      assert m[i] == reaps[i];
    }
  }

  // ---------------------------------------------------------------- every step

  // No change of relatives.
  ghost predicate SameKin<T>(s: Sys<T>, r: Sys<T>) {
    && r.kernel == s.kernel && r.tasks.Keys == s.tasks.Keys
    && forall t :: t in s.tasks ==>
         && r.tasks[t].parent == s.tasks[t].parent && r.tasks[t].children == s.tasks[t].children
         && r.tasks[t].waited == s.tasks[t].waited && r.tasks[t].pid == s.tasks[t].pid
  }

  lemma MilderKin<T>(s: Sys<T>, r: Sys<T>)
    requires Milder(s.tasks, r.tasks) && r.kernel == s.kernel
    ensures SameKin(s, r)
  {
  }

  lemma KinTrans<T>(a: Sys<T>, b: Sys<T>, c: Sys<T>)
    requires SameKin(a, b) && SameKin(b, c)
    ensures SameKin(a, c)
  {
  }

  lemma KinKept<T>(s: Sys<T>, r: Sys<T>, l: Log<T>, exits: map<T, int>)
    requires Kin(s, l) && SameKin(s, r)
    ensures Kin(r, l.(exits := exits))
  {
    hide Unreturned, OnceEach, Returned, Born, ReapedOwn;
    forall i | 0 <= i < |l.births|
      ensures BirthOk(r, l.(exits := exits), l.births[i])
    {
      assert BirthOk(s, l, l.births[i]);
    }
  }

  // The steps that neither create nor return a task.
  lemma QuietKin<T>(s: Sys<T>, a: Action<T>)
    requires Good(s) && Enabled(s, a) && !a.OnCreate? && (a.OnWait? ==> !Wait(s).1.Reaped?)
    ensures SameKin(s, Next(s, a))
  {
    hide Scheduled, Family, Closed, Milder, Schedule, SameKin;
    GoodCloses(s);
    match a {
      case OnTick =>
        TickKeeps(s);
        TickKernel(s);
        MilderKin(s, Tick(s));
      case OnYield =>
        YieldKeeps(s);
        ScheduleKernel(s);
        MilderKin(s, Schedule(s));
      case OnSleep(ms) =>
        SleepKeeps(s, ms);
        var c := s.tasks[s.current].(state := Sleeping, wake := (s.ticks + ms) % TWO_32);
        SleepKernel(s, c);
        MilderKin(s, Sleep(s, ms));
      case OnExit(code) => ExitKin(s, code);
      case OnWait => WaitKin(s);
      case OnAdd(t) =>
        AddKeeps(s, t);
        MilderKin(s, Add(s, t));
    }
  }

  lemma ScheduleKernel<T>(s: Sys<T>)
    requires Closed(s)
    ensures Schedule(s).kernel == s.kernel
  {
  }

  lemma TickKernel<T>(s: Sys<T>)
    requires Good(s)
    ensures Closed(s) && Tick(s).kernel == s.kernel
  {
    hide Schedule, Family, NoRepeats;
    TickParts(s);
    var now := (s.ticks + 1) % TWO_32;
    var woken := WakeAll(s.tasks, s.queue, now);
    ScheduleKernel(s.(ticks := now, tasks := woken[s.current := Spent(woken[s.current])]));
  }

  lemma SleepKernel<T>(s: Sys<T>, c: Tcb<T>)
    requires Good(s) && s.current in s.tasks && c.state != Zombie
    requires c.parent == s.tasks[s.current].parent && c.children == s.tasks[s.current].children
    ensures var a := s.(tasks := s.tasks[s.current := c]);
            Closed(a) && Schedule(a).kernel == s.kernel
  {
    hide Schedule, Family, NoRepeats;
    CurrentSwitchable(s, c);
    ScheduleKernel(s.(tasks := s.tasks[s.current := c]));
  }

  lemma DyingKin<T>(s: Sys<T>, code: int)
    requires Closed(s)
    ensures SameKin(s, Dying(s, code))
  {
  }

  lemma ExitKin<T>(s: Sys<T>, code: int)
    requires Good(s)
    ensures SameKin(s, Exit(s, code))
  {
    ExitKeeps(s, code);
    if s.current != s.kernel {
      hide Schedule, Family, NoRepeats, SameKin, Milder, Dying;
      var d := Dying(s, code);
      DyingKin(s, code);
      ScheduleKeeps(d);
      MilderKin(d, Schedule(d));
      KinTrans(s, d, Schedule(d));
    }
  }

  lemma WaitKin<T>(s: Sys<T>)
    requires Good(s) && !Wait(s).1.Reaped?
    ensures SameKin(s, Wait(s).0)
  {
    hide Schedule, NoRepeats, Milder, Family;
    if Wait(s).1.Waiting? {
      var c := s.tasks[s.current].(state := Blocked);
      CurrentSwitchable(s, c);
      var a := s.(tasks := s.tasks[s.current := c]);
      assert SameKin(s, a);
      hide SameKin, Closed;
      ScheduleKeeps(a);
      MilderKin(a, Schedule(a));
      KinTrans(s, a, Schedule(a));
    }
  }

  // ---------------------------------------------------------------- creation

  lemma CreateKin<T>(s: Sys<T>, l: Log<T>, t: T, pid: nat)
    requires Good(s) && Kin(s, l) && t !in s.tasks
    ensures Kin(Create(s, t, pid), l.(births := l.births + [Birth(s.current, t, pid)]))
  {
    var r, m := Create(s, t, pid), l.(births := l.births + [Birth(s.current, t, pid)]);
    CreateAt(s, t, pid);
    BornExists(s, l, t);
    hide Create, Scheduled, Family, Returned, Unreturned;
    CreateBirths(s, l, t, pid);
    forall p | p in r.tasks
      ensures r.tasks[p].children == Unreturned(m.births, m.reaps, p)
    {
      OneMoreBirth(l.births, l.reaps, Birth(s.current, t, pid), p);
    }
    forall i | 0 <= i < |m.reaps|
      ensures ReapedOwn(m.births, m.reaps[i])
    {
      assert ReapedOwn(l.births, l.reaps[i]);
    }
  }

  lemma CreateAt<T>(s: Sys<T>, t: T, pid: nat)
    requires Closed(s) && t !in s.tasks
    ensures var r := Create(s, t, pid);
            && r.tasks.Keys == s.tasks.Keys + {t} && r.kernel == s.kernel && s.kernel in s.tasks && s.current in s.tasks
            && r.tasks[t].children == [] && r.tasks[t].parent == Some(s.current) && r.tasks[t].pid == pid
            && !r.tasks[t].waited
            && forall q :: q in s.tasks ==>
                 && r.tasks[q].parent == s.tasks[q].parent && r.tasks[q].waited == s.tasks[q].waited
                 && r.tasks[q].pid == s.tasks[q].pid
                 && r.tasks[q].children == (if q == s.current then [t] else []) + s.tasks[q].children
  {
  }

  // Only tasks that exist were created, returned, or created others.
  lemma BornExists<T>(s: Sys<T>, l: Log<T>, t: T)
    requires Kin(s, l)
    ensures Born(l.births, t) || Returned(l.reaps, t) || Unreturned(l.births, l.reaps, t) != [] ==> t in s.tasks
  {
    hide Unreturned;
    if Born(l.births, t) {
      var i :| 0 <= i < |l.births| && l.births[i].child == t;
      assert BirthOk(s, l, l.births[i]);
    }
    if Returned(l.reaps, t) {
      var i :| 0 <= i < |l.reaps| && l.reaps[i].child == t;
      assert ReapedOwn(l.births, l.reaps[i]);
      var b := Birth(l.reaps[i].parent, t, l.reaps[i].pid);
      var j :| 0 <= j < |l.births| && l.births[j] == b;
      assert BirthOk(s, l, l.births[j]);
    }
    if Unreturned(l.births, l.reaps, t) != [] {
      var c := Unreturned(l.births, l.reaps, t)[0];
      UnreturnedHas(l.births, l.reaps, t, c);
      var i :| 0 <= i < |l.births| && l.births[i].child == c && l.births[i].parent == t;
      assert BirthOk(s, l, l.births[i]);
    }
  }

  lemma OneMoreBirth<T>(births: seq<Birth<T>>, reaps: seq<Reap<T>>, b: Birth<T>, p: T)
    ensures Unreturned(births + [b], reaps, p)
            == (if b.parent == p && !Returned(reaps, b.child) then [b.child] else []) + Unreturned(births, reaps, p)
  {
    assert (births + [b])[..|births|] == births;
  }

  lemma CreateBirths<T>(s: Sys<T>, l: Log<T>, t: T, pid: nat)
    requires Good(s) && Kin(s, l) && t !in s.tasks
    ensures var r, m := Create(s, t, pid), l.(births := l.births + [Birth(s.current, t, pid)]);
            && (forall i :: 0 <= i < |m.births| ==> BirthOk(r, m, m.births[i]))
            && OnceEach(m.births)
            && (forall q :: q in r.tasks ==> q == r.kernel || Born(m.births, q))
  {
    var r, m := Create(s, t, pid), l.(births := l.births + [Birth(s.current, t, pid)]);
    CreateAt(s, t, pid);
    BornExists(s, l, t);
    BornMore(l.births, Birth(s.current, t, pid));
    hide Create, Scheduled, Family, Returned, Unreturned, Born, OnceEach, ReapedOwn;
    forall i | 0 <= i < |m.births|
      ensures BirthOk(r, m, m.births[i])
    {
      if i < |l.births| {
        assert BirthOk(s, l, l.births[i]);
      }
    }
  }

  lemma BornMore<T>(births: seq<Birth<T>>, b: Birth<T>)
    requires OnceEach(births) && !Born(births, b.child)
    ensures OnceEach(births + [b])
    ensures forall t :: Born(births + [b], t) <==> Born(births, t) || t == b.child
  {
    var m := births + [b];
    assert m[|births|] == b;
    forall t | Born(births, t)
      ensures Born(m, t)
    {
      var i :| 0 <= i < |births| && births[i].child == t;
      assert m[i] == births[i];
    }
  }

  // ---------------------------------------------------------------- return

  lemma ReapKin<T>(s: Sys<T>, l: Log<T>)
    requires Good(s) && Kin(s, l) && Wait(s).1.Reaped?
    ensures Kin(Wait(s).0, NextLog(s, l, OnWait))
  {
    assert FamilyOf(s.tasks, s.current);
    var me := s.tasks[s.current];
    var k := FirstZombie(s.tasks, me.children);
    var c := me.children[k];
    var r := Wait(s).0;
    assert r == s.(tasks := ReapTasks(s.tasks, s.current, k));
    var reap := Reap(s.current, c, s.tasks[c].pid, s.tasks[c].code);
    assert NextLog(s, l, OnWait) == l.(reaps := l.reaps + [reap]);
    hide Wait, NextLog, Scheduled, Family, FamilyOf, FirstZombie;
    forall t | t in s.tasks
      ensures t in r.tasks
      ensures r.tasks[t] == if t == s.current then s.tasks[t].(children := me.children[..k] + me.children[k + 1..])
                            else if t == c then s.tasks[t].(waited := true, parent := None)
                            else s.tasks[t]
    {
      ReapAt(s.tasks, s.current, k, t);
    }
    ReapAt(s.tasks, s.current, k, c);
    hide ReapTasks;
    ReapKids(s, l, r, k);
  }

  lemma ReapKids<T>(s: Sys<T>, l: Log<T>, r: Sys<T>, k: nat)
    requires Kin(s, l) && s.current in s.tasks && k < |s.tasks[s.current].children|
    requires NoRepeats(s.tasks[s.current].children)
    requires var me := s.tasks[s.current];
             var c := me.children[k];
             && c in s.tasks && c != s.current && r.kernel == s.kernel && r.tasks.Keys == s.tasks.Keys
             && forall t :: t in s.tasks ==>
                  r.tasks[t] == if t == s.current then s.tasks[t].(children := me.children[..k] + me.children[k + 1..])
                                else if t == c then s.tasks[t].(waited := true, parent := None)
                                else s.tasks[t]
    ensures var c := s.tasks[s.current].children[k];
            Kin(r, l.(reaps := l.reaps + [Reap(s.current, c, s.tasks[c].pid, s.tasks[c].code)]))
  {
    hide Unreturned, Returned, NoRepeats, Born;
    var c := s.tasks[s.current].children[k];
    var reap := Reap(s.current, c, s.tasks[c].pid, s.tasks[c].code);
    var m := l.(reaps := l.reaps + [reap]);
    forall i | 0 <= i < |l.births|
      ensures BirthOk(r, m, m.births[i])
    {
      assert BirthOk(s, l, l.births[i]);
      ReturnedMore(l.reaps, reap, l.births[i].child);
    }
    ReapedBirth(s, l, s.current, c);
    forall p | p in s.tasks
      ensures r.tasks[p].children == Unreturned(m.births, m.reaps, p)
    {
      ReapLists(l, s.current, k, reap, p);
    }
  }

  lemma ReapLists<T>(l: Log<T>, p: T, k: nat, reap: Reap<T>, q: T)
    requires OnceEach(l.births) && k < |Unreturned(l.births, l.reaps, p)| && NoRepeats(Unreturned(l.births, l.reaps, p))
    requires reap.child == Unreturned(l.births, l.reaps, p)[k]
    ensures var kids := Unreturned(l.births, l.reaps, q);
            Unreturned(l.births, l.reaps + [reap], q) == if q == p then kids[..k] + kids[k + 1..] else kids
  {
    hide Unreturned, Returned, Without, NoRepeats;
    UnreturnedReap(l.births, l.reaps, reap, q);
    if q == p {
      WithoutAt(Unreturned(l.births, l.reaps, p), k);
    } else {
      UnreturnedHas(l.births, l.reaps, p, reap.child);
      UnreturnedHas(l.births, l.reaps, q, reap.child);
      WithoutNone(Unreturned(l.births, l.reaps, q), reap.child);
    }
  }

  // A child on the list was created by the parent, with its PID.
  lemma ReapedBirth<T>(s: Sys<T>, l: Log<T>, p: T, c: T)
    requires Kin(s, l) && c in Unreturned(l.births, l.reaps, p) && c in s.tasks
    ensures Birth(p, c, s.tasks[c].pid) in l.births
  {
    hide Unreturned, Returned;
    UnreturnedHas(l.births, l.reaps, p, c);
    var i :| 0 <= i < |l.births| && l.births[i].child == c && l.births[i].parent == p;
    assert BirthOk(s, l, l.births[i]);
  }

  // ---------------------------------------------------------------- runs

  lemma KinStep<T>(s: Sys<T>, l: Log<T>, a: Action<T>)
    requires Good(s) && Kin(s, l) && Enabled(s, a)
    ensures Kin(Next(s, a), NextLog(s, l, a))
  {
    hide Good, Kin, Create, Wait, SameKin;
    GoodCloses(s);
    if a.OnCreate? {
      CreateKin(s, l, a.t, a.pid);
    } else if a.OnWait? && Wait(s).1.Reaped? {
      ReapKin(s, l);
    } else {
      QuietKin(s, a);
      KinKept(s, Next(s, a), l, NextLog(s, l, a).exits);
    }
  }

  lemma {:induction false} KinRun<T>(s: Sys<T>, l: Log<T>, run: seq<Action<T>>)
    requires Good(s) && Kin(s, l) && CanRun(s, run)
    ensures Good(After(s, run)) && Kin(After(s, run), LogAfter(s, l, run))
    decreases |run|
  {
    hide Good, Kin, Next, NextLog;
    if run != [] {
      KinStep(s, l, run[0]);
      StepGood(s, run[0]);
      KinRun(Next(s, run[0]), NextLog(s, l, run[0]), run[1..]);
    }
  }

  lemma BootKin<T>(kernel: T)
    ensures Kin(Boot(kernel), Log([], map[], []))
  {
  }

  // The task of this birth, as it stands: returned to its creator, with its PID and exit code,
  // or still on its creator's list.
  ghost predicate Kept<T>(s: Sys<T>, l: Log<T>, b: Birth<T>) {
    && b.child in s.tasks && b.parent in s.tasks
    && if Returned(l.reaps, b.child) then
         b.child in l.exits && Reap(b.parent, b.child, b.pid, l.exits[b.child]) in l.reaps
       else
         b.child in s.tasks[b.parent].children && s.tasks[b.child].parent == Some(b.parent)
  }

  /** In every state reachable from boot, a task is on the list of the task that created it,
      and has it as its parent, until sys_wait of that task returns it, with the PID it was
      created with and the code it exited with.  The list holds nothing else. */
  lemma ChildrenFromBoot<T>(kernel: T, run: seq<Action<T>>)
    requires CanRun(Boot(kernel), run)
    ensures var s, l := After(Boot(kernel), run), LogAfter(Boot(kernel), Log([], map[], []), run);
            && (forall i :: 0 <= i < |l.births| ==> Kept(s, l, l.births[i]))
            && forall p, t :: p in s.tasks && t in s.tasks[p].children ==>
                 t in s.tasks && Birth(p, t, s.tasks[t].pid) in l.births && !Returned(l.reaps, t)
  {
    hide Good, Recorded, Kin, Boot, CanRun, After, LogAfter, Returned;
    BootGood(kernel);
    BootKin(kernel);
    RunKeeps(Boot(kernel), Log([], map[], []), run);
    KinRun(Boot(kernel), Log([], map[], []), run);
    var s, l := After(Boot(kernel), run), LogAfter(Boot(kernel), Log([], map[], []), run);
    forall i | 0 <= i < |l.births|
      ensures Kept(s, l, l.births[i])
    {
      BirthKept(s, l, i);
    }
    forall p, t | p in s.tasks && t in s.tasks[p].children
      ensures t in s.tasks && Birth(p, t, s.tasks[t].pid) in l.births && !Returned(l.reaps, t)
    {
      ListedBorn(s, l, p, t);
    }
  }

  lemma ListedBorn<T>(s: Sys<T>, l: Log<T>, p: T, t: T)
    requires Kin(s, l) && p in s.tasks && t in s.tasks[p].children
    ensures t in s.tasks && Birth(p, t, s.tasks[t].pid) in l.births && !Returned(l.reaps, t)
  {
    hide Unreturned, Returned;
    UnreturnedHas(l.births, l.reaps, p, t);
    var i :| 0 <= i < |l.births| && l.births[i].child == t && l.births[i].parent == p;
    assert BirthOk(s, l, l.births[i]);
  }

  lemma BirthKept<T>(s: Sys<T>, l: Log<T>, i: nat)
    requires Recorded(s, l) && Kin(s, l) && i < |l.births|
    ensures Kept(s, l, l.births[i])
  {
    hide Unreturned, Born;
    var b := l.births[i];
    assert BirthOk(s, l, b);
    if Returned(l.reaps, b.child) {
      var k :| 0 <= k < |l.reaps| && l.reaps[k].child == b.child;
      assert ReapOk(s, l, l.reaps[k]) && ReapedOwn(l.births, l.reaps[k]);
      var j :| 0 <= j < |l.births| && l.births[j] == Birth(l.reaps[k].parent, b.child, l.reaps[k].pid);
      assert j == i;
    } else {
      UnreturnedHas(l.births, l.reaps, b.parent, b.child);
    }
  }

  // ---------------------------------------------------------------- what sys_wait answers

  // p created it, and sys_wait has not returned it.
  ghost predicate Due<T>(l: Log<T>, p: T, b: Birth<T>) {
    b.parent == p && !Returned(l.reaps, b.child)
  }

  /** A scan of sys_wait: "no children" if and only if all tasks that the caller created have
      been returned; the caller blocks if and only if some have not, and none of these has
      exited; and otherwise it returns the newest of those that have exited. */
  lemma WaitAnswer<T>(s: Sys<T>, l: Log<T>)
    requires Good(s) && Recorded(s, l) && Kin(s, l)
    ensures var w, p := Wait(s).1, s.current;
            && (w.NoChildren? <==> forall i :: 0 <= i < |l.births| ==> !Due(l, p, l.births[i]))
            && (w.Reaped?
                <==> exists i :: 0 <= i < |l.births| && Due(l, p, l.births[i]) && l.births[i].child in l.exits)
            && (w.Reaped? ==>
                  exists i :: 0 <= i < |l.births| && Due(l, p, l.births[i]) && w.child in l.exits
                    && l.births[i] == Birth(p, w.child, w.pid) && w.code == l.exits[w.child]
                    && forall j :: i < j < |l.births| && Due(l, p, l.births[j]) ==> l.births[j].child !in l.exits)
  {
    hide Unreturned, Returned, NoRepeats, Born;
    var p := s.current;
    var kids := s.tasks[p].children;
    assert FamilyOf(s.tasks, p);
    hide Family;
    var k := FirstZombie(s.tasks, kids);
    forall i | 0 <= i < |l.births| && Due(l, p, l.births[i])
      ensures l.births[i].child in kids
    {
      UnreturnedHas(l.births, l.reaps, p, l.births[i].child);
    }
    if kids != [] {
      var i := DueAt(s, l, p, if k < |kids| then k else 0);
    }
  }

  // Element k of the children as a birth; the newer ones are in front of it.
  lemma DueAt<T>(s: Sys<T>, l: Log<T>, p: T, k: nat) returns (i: nat)
    requires Kin(s, l) && p in s.tasks && k < |s.tasks[p].children|
    ensures i < |l.births| && Due(l, p, l.births[i]) && l.births[i].child == s.tasks[p].children[k]
    ensures l.births[i].child in s.tasks && l.births[i].pid == s.tasks[l.births[i].child].pid
    ensures forall j :: i < j < |l.births| && Due(l, p, l.births[j]) ==> l.births[j].child in s.tasks[p].children[..k]
  {
    hide Unreturned, Returned, Born;
    i := UnreturnedAt(l.births, l.reaps, p, k);
    assert BirthOk(s, l, l.births[i]);
  }

  lemma {:induction false} UnreturnedAt<T>(births: seq<Birth<T>>, reaps: seq<Reap<T>>, p: T, k: nat) returns (i: nat)
    requires k < |Unreturned(births, reaps, p)|
    ensures i < |births| && births[i].parent == p && !Returned(reaps, births[i].child)
    ensures births[i].child == Unreturned(births, reaps, p)[k]
    ensures forall j :: i < j < |births| && births[j].parent == p && !Returned(reaps, births[j].child) ==>
              births[j].child in Unreturned(births, reaps, p)[..k]
  {
    hide Returned;
    var n := |births| - 1;
    var b := births[n];
    var old_ := Unreturned(births[..n], reaps, p);
    if b.parent == p && !Returned(reaps, b.child) {
      if k == 0 {
        i := n;
      } else {
        i := UnreturnedAt(births[..n], reaps, p, k - 1);
        assert Unreturned(births, reaps, p)[..k] == [b.child] + old_[..k - 1];
        assert forall j :: 0 <= j < n ==> births[..n][j] == births[j];
      }
    } else {
      i := UnreturnedAt(births[..n], reaps, p, k);
      assert Unreturned(births, reaps, p) == old_;
      assert forall j :: 0 <= j < n ==> births[..n][j] == births[j];
    }
  }

  /** Right after task_create, sys_wait of the creator does not answer "no children": with no
      exited child it blocks. */
  lemma CreateThenWait<T>(s: Sys<T>, t: T, pid: nat)
    requires Good(s) && t !in s.tasks
    ensures Good(Create(s, t, pid)) && !Wait(Create(s, t, pid)).1.NoChildren?
    ensures (forall i :: 0 <= i < |s.tasks[s.current].children| ==>
               s.tasks[s.current].children[i] in s.tasks && s.tasks[s.tasks[s.current].children[i]].state != Zombie)
            ==> Wait(Create(s, t, pid)).1.Waiting?
  {
    CreateKeeps(s, t, pid);
    hide Scheduled, Family, Schedule;
  }

  // ---------------------------------------------------------------- waiting often enough

  // How often p scans for children, and how many it creates, in a run.
  ghost function Scans<T>(s: Sys<T>, run: seq<Action<T>>, p: T): nat
    requires CanRun(s, run)
    decreases |run|
  {
    if run == [] then 0
    else (if run[0].OnWait? && s.current == p then 1 else 0) + Scans(Next(s, run[0]), run[1..], p)
  }

  ghost function Creations<T>(s: Sys<T>, run: seq<Action<T>>, p: T): nat
    requires CanRun(s, run)
    decreases |run|
  {
    if run == [] then 0
    else (if run[0].OnCreate? && s.current == p then 1 else 0) + Creations(Next(s, run[0]), run[1..], p)
  }

  // One step with an exited child t on p's list.
  lemma ChildStep<T>(s: Sys<T>, l: Log<T>, a: Action<T>, p: T, t: T)
    requires Good(s) && Enabled(s, a) && p in s.tasks && t in s.tasks && t in s.tasks[p].children
    requires s.tasks[t].state == Zombie
    ensures var r, m := Next(s, a), NextLog(s, l, a);
            && p in r.tasks
            && (Returned(m.reaps, t)
                || (t in r.tasks[p].children
                    && |r.tasks[p].children| + (if a.OnWait? && s.current == p then 1 else 0)
                       == |s.tasks[p].children| + (if a.OnCreate? && s.current == p then 1 else 0)))
  {
    GoodCloses(s);
    assert FamilyOf(s.tasks, p);
    if a.OnCreate? {
      CreateAt(s, a.t, a.pid);
    } else if a.OnWait? && Wait(s).1.Reaped? {
      ChildReap(s, l, p, t);
    } else {
      ZombieFound(s, p, t);
      hide Good, Next, Wait;
      QuietKin(s, a);
    }
  }

  // With an exited child, a scan does not block.
  lemma ZombieFound<T>(s: Sys<T>, p: T, t: T)
    requires Good(s) && p in s.tasks && t in s.tasks && t in s.tasks[p].children && s.tasks[t].state == Zombie
    ensures s.current == p ==> Wait(s).1.Reaped?
  {
    hide Scheduled, Schedule;
    GoodCloses(s);
    assert FamilyOf(s.tasks, p);
  }

  lemma ChildReap<T>(s: Sys<T>, l: Log<T>, p: T, t: T)
    requires Good(s) && p in s.tasks && t in s.tasks && t in s.tasks[p].children && Wait(s).1.Reaped?
    ensures var r, m := Wait(s).0, NextLog(s, l, OnWait);
            && p in r.tasks
            && (Returned(m.reaps, t)
                || (t in r.tasks[p].children
                    && |r.tasks[p].children| == |s.tasks[p].children| - if s.current == p then 1 else 0))
  {
    assert FamilyOf(s.tasks, s.current);
    var me := s.tasks[s.current];
    var k := FirstZombie(s.tasks, me.children);
    assert Wait(s).0 == s.(tasks := ReapTasks(s.tasks, s.current, k));
    ReapAt(s.tasks, s.current, k, p);
    var c := me.children[k];
    ReturnedMore(l.reaps, Reap(s.current, c, s.tasks[c].pid, s.tasks[c].code), t);
  }

  lemma {:induction false} ReturnedStays<T>(s: Sys<T>, l: Log<T>, run: seq<Action<T>>, t: T)
    requires CanRun(s, run) && Returned(l.reaps, t)
    ensures Returned(LogAfter(s, l, run).reaps, t)
    decreases |run|
  {
    hide Next, Wait;
    if run != [] {
      var m := NextLog(s, l, run[0]);
      if m.reaps != l.reaps {
        ReturnedMore(l.reaps, m.reaps[|l.reaps|], t);
      }
      ReturnedStays(Next(s, run[0]), m, run[1..], t);
    }
  }

  /** While an exited child is not returned, every scan of its parent returns another child:
      the parent's list shrinks by one with every scan and grows only with new children. */
  lemma {:induction false} ChildRun<T>(s: Sys<T>, l: Log<T>, run: seq<Action<T>>, p: T, t: T)
    requires Good(s) && CanRun(s, run) && p in s.tasks && t in s.tasks && t in s.tasks[p].children
    requires s.tasks[t].state == Zombie
    ensures var r, m := After(s, run), LogAfter(s, l, run);
            || Returned(m.reaps, t)
            || (p in r.tasks && t in r.tasks[p].children
                && |r.tasks[p].children| + Scans(s, run, p) == |s.tasks[p].children| + Creations(s, run, p))
    decreases |run|
  {
    hide Good, Next, NextLog, Returned;
    if run != [] {
      var r, m := Next(s, run[0]), NextLog(s, l, run[0]);
      ChildStep(s, l, run[0], p, t);
      StepGood(s, run[0]);
      if Returned(m.reaps, t) {
        ReturnedStays(r, m, run[1..], t);
      } else {
        ZombieStep(s, run[0], t);
        ChildRun(r, m, run[1..], p, t);
      }
    }
  }

  /** A task exits.  If its parent then scans as often as it has children, plus once for every
      child that it creates meanwhile, one of the scans returns the task, with its PID and
      its exit code. */
  lemma ReturnedInTime<T>(s: Sys<T>, l: Log<T>, run: seq<Action<T>>, p: T, t: T)
    requires Good(s) && Recorded(s, l) && Kin(s, l) && CanRun(s, run)
    requires p in s.tasks && t in s.tasks && t in s.tasks[p].children && s.tasks[t].state == Zombie
    requires Scans(s, run, p) >= |s.tasks[p].children| + Creations(s, run, p)
    ensures Reap(p, t, s.tasks[t].pid, s.tasks[t].code) in LogAfter(s, l, run).reaps
  {
    hide Good, Recorded, Kin, CanRun, After, LogAfter, Returned, Scans, Creations;
    var r, m := After(s, run), LogAfter(s, l, run);
    RunKeeps(s, l, run);
    KinRun(s, l, run);
    ChildRun(s, l, run, p, t);
    ZombieForever(s, run, t);
    ListedBorn(s, l, p, t);
    BirthsStay(s, l, run, Birth(p, t, s.tasks[t].pid));
    var i :| 0 <= i < |m.births| && m.births[i] == Birth(p, t, s.tasks[t].pid);
    BirthKept(r, m, i);
    ExitCode(r, m, t);
  }

  lemma ExitCode<T>(s: Sys<T>, l: Log<T>, t: T)
    requires Recorded(s, l) && t in l.exits
    ensures t in s.tasks && s.tasks[t].code == l.exits[t]
  {
  }

  lemma {:induction false} BirthsStay<T>(s: Sys<T>, l: Log<T>, run: seq<Action<T>>, b: Birth<T>)
    requires CanRun(s, run) && b in l.births
    ensures b in LogAfter(s, l, run).births
    decreases |run|
  {
    hide Next, Wait;
    if run != [] {
      BirthsStay(Next(s, run[0]), NextLog(s, l, run[0]), run[1..], b);
    }
  }
}
