/**
 The learned-command table of ai/ai.c: at most 32 entries, the least recently used one
 replaced.  After any history it holds exactly the 32 most recently used commands.
 */
module Lru {

  const MAX_COMMANDS: nat := 32
  const MAX_LENGTH: nat := 64        // with the terminating NUL
  const TWO_32: nat := 0x1_0000_0000

  datatype Entry = Entry(cmd: string, freq: nat, last: nat, rate: nat)

  // One call of ai_learn_command.
  datatype Use = Use(cmd: string, ok: bool)

  // The exponential moving average of the success rate.
  function Blend(rate: nat, ok: bool): nat {
    (rate * 95 + (if ok then 100 else 0) * 5) / 100
  }

  // ---------------------------------------------------------------- the table on values

  function Find(t: seq<Entry>, cmd: string): (r: nat)
    ensures r <= |t| && (r < |t| ==> t[r].cmd == cmd)
    ensures forall i :: 0 <= i < r ==> t[i].cmd != cmd
  {
    if t == [] then 0
    else if t[0].cmd == cmd then 0
    else
      var k := Find(t[1..], cmd);
      assert forall i :: 0 < i < |t| ==> t[i] == t[1..][i - 1];
      k + 1
  }

  // The eviction scan over the first n entries: the slot and its time stamp.
  function Oldest(t: seq<Entry>, n: nat, now: nat): (r: (nat, nat))
    requires n <= |t|
    ensures r.0 < n || r == (0, now)
    ensures r.1 <= now && (r.0 < n && r.1 < now ==> t[r.0].last == r.1)
    ensures forall i :: 0 <= i < n ==> r.1 <= t[i].last
    ensures r.1 < now ==> r.0 < n
  {
    if n == 0 then (0, now)
    else
      var r := Oldest(t, n - 1, now);
      if t[n - 1].last < r.1 then (n - 1, t[n - 1].last) else r
  }

  function Used(e: Entry, now: nat, ok: bool): Entry {
    e.(freq := (e.freq + 1) % TWO_32, last := now, rate := Blend(e.rate, ok))
  }

  // A new entry; the stored command is cut to 63 characters.
  function Fresh(cmd: string): Entry {
    Entry(if |cmd| < MAX_LENGTH then cmd else cmd[..MAX_LENGTH - 1], 0, 0, 100)
  }

  // ai_learn_command on the entries.
  function Learned(t: seq<Entry>, now: nat, u: Use): (r: seq<Entry>)
    requires |t| <= MAX_COMMANDS
    ensures |r| <= MAX_COMMANDS
  {
    var k := Find(t, u.cmd);
    if k < |t| then t[k := Used(t[k], now, u.ok)]
    else if |t| < MAX_COMMANDS then t + [Used(Fresh(u.cmd), now, u.ok)]
    else t[Oldest(t, |t|, now).0 := Used(Fresh(u.cmd), now, u.ok)]
  }

  class CommandTable {
    const db: array<Entry>
    var num: nat
    var ticks: nat

    ghost predicate Valid()
      reads this
    {
      db.Length == MAX_COMMANDS && num <= MAX_COMMANDS
    }

    ghost function Contents(): seq<Entry>
      requires Valid()
      reads this, db
    {
      db[..num]
    }

    // ai_init.
    constructor ()
      ensures Valid() && Contents() == [] && ticks == 0 && fresh(db)
    {
      db := new Entry[MAX_COMMANDS](_ => Entry("", 0, 0, 0));
      num, ticks := 0, 0;
    }

    /** ai_find_command. */
    method FindCommand(cmd: string) returns (idx: int)
      requires Valid()
      ensures idx == if Find(Contents(), cmd) < num then Find(Contents(), cmd) else -1
    {
      var i: nat := 0;
      while i < num
        invariant i <= num && forall j :: 0 <= j < i ==> db[j].cmd != cmd
      {
        if db[i].cmd == cmd {
          FindIs(Contents(), cmd, i);
          return i;
        }
        i := i + 1;
      }
      FindIs(Contents(), cmd, num);
      return -1;
    }

    /** The eviction scan of ai_learn_command. */
    method FindOldest() returns (at: nat)
      requires Valid()
      ensures at == Oldest(Contents(), num, ticks).0
    {
      var time: nat := ticks;
      at := 0;
      var i: nat := 0;
      while i < num
        invariant i <= num && Oldest(Contents(), i, ticks) == (at, time)
      {
        if db[i].last < time {
          time, at := db[i].last, i;
        }
        i := i + 1;
      }
    }

    /** ai_learn_command. */
    method Learn(cmd: string, ok: bool)
      requires Valid()
      modifies this, db
      ensures Valid() && (cmd == "" ==> Contents() == old(Contents()) && ticks == old(ticks))
      ensures cmd != "" ==>
                && ticks == (old(ticks) + 1) % TWO_32
                && Contents() == Learned(old(Contents()), ticks, Use(cmd, ok))
    {
      if cmd == "" {
        return;
      }
      ticks := (ticks + 1) % TWO_32;
      var idx := FindCommand(cmd);
      if idx < 0 {
        if num >= MAX_COMMANDS {
          idx := FindOldest();
        } else {
          idx := num;
          num := num + 1;
        }
        db[idx] := Fresh(cmd);
      }
      db[idx] := Used(db[idx], ticks, ok);
    }
  }

  lemma {:induction false} FindIs(t: seq<Entry>, cmd: string, k: nat)
    requires k <= |t| && (forall i :: 0 <= i < k ==> t[i].cmd != cmd) && (k < |t| ==> t[k].cmd == cmd)
    ensures Find(t, cmd) == k
  {
  }

  // ---------------------------------------------------------------- histories

  // The table after a history; empty commands are ignored.
  function After(h: seq<Use>): (r: (seq<Entry>, nat))
    ensures |r.0| <= MAX_COMMANDS
  {
    if h == [] then ([], 0)
    else
      var (t, ticks) := After(h[..|h| - 1]);
      var u := h[|h| - 1];
      if u.cmd == "" then (t, ticks) else (Learned(t, (ticks + 1) % TWO_32, u), (ticks + 1) % TWO_32)
  }

  // Histories of non-empty commands that fit into an entry, without wrap-around.
  ghost predicate Plain(h: seq<Use>) {
    |h| < TWO_32 && forall i :: 0 <= i < |h| ==> 0 < |h[i].cmd| < 64
  }

  // When c was last used, counting from 1; 0 if never.
  ghost function LastUse(h: seq<Use>, c: string): (r: nat)
    ensures r <= |h| && (r > 0 ==> h[r - 1].cmd == c)
    ensures forall i :: r <= i < |h| ==> h[i].cmd != c
  {
    if h == [] then 0 else if h[|h| - 1].cmd == c then |h| else LastUse(h[..|h| - 1], c)
  }

  // The commands used after time n.
  ghost function Since(h: seq<Use>, n: nat): (r: set<string>)
    ensures forall c :: c in r <==> exists i :: n <= i < |h| && h[i].cmd == c
  {
    set i | n <= i < |h| :: h[i].cmd
  }

  /** c is one of the 32 most recently used commands: it was used, and fewer than 32
      different commands have been used since. */
  ghost predicate Recent(h: seq<Use>, c: string) {
    LastUse(h, c) > 0 && |Since(h, LastUse(h, c))| < 32
  }

  // The uses of c since it last became one of the 32 most recent commands.
  ghost function Uses(h: seq<Use>, c: string): nat {
    if h == [] then 0
    else
      var p := h[..|h| - 1];
      if h[|h| - 1].cmd != c then Uses(p, c)
      else if Recent(p, c) then Uses(p, c) + 1
      else 1
  }

  // Its success rate over those uses, from an optimistic start.
  ghost function Rating(h: seq<Use>, c: string): nat {
    if h == [] then 100
    else
      var p := h[..|h| - 1];
      if h[|h| - 1].cmd != c then Rating(p, c)
      else Blend(if Recent(p, c) then Rating(p, c) else 100, h[|h| - 1].ok)
  }

  // ---------------------------------------------------------------- the invariant

  ghost function Commands(t: seq<Entry>): (r: set<string>)
    ensures forall c :: c in r <==> exists i :: 0 <= i < |t| && t[i].cmd == c
  {
    set i | 0 <= i < |t| :: t[i].cmd
  }

  // Distinct commands with their last uses; every other used command is older.
  ghost predicate Ordered(h: seq<Use>, t: seq<Entry>) {
    && Distinct(t) && Stamped(h, t)
    && forall c :: LastUse(h, c) > 0 && c !in Commands(t) ==> Behind(LastUse(h, c), t)
  }

  ghost predicate Stamped(h: seq<Use>, t: seq<Entry>) {
    forall i :: 0 <= i < |t| ==> t[i].last == LastUse(h, t[i].cmd) > 0
  }

  ghost predicate Distinct(t: seq<Entry>) {
    forall i, j :: 0 <= i < j < |t| ==> t[i].cmd != t[j].cmd
  }

  ghost predicate Behind(n: nat, t: seq<Entry>) {
    forall i :: 0 <= i < |t| ==> n < t[i].last
  }

  ghost predicate Complete(h: seq<Use>, t: seq<Entry>) {
    |t| < MAX_COMMANDS ==> forall c :: LastUse(h, c) > 0 ==> c in Commands(t)
  }

  ghost predicate Counted(h: seq<Use>, t: seq<Entry>) {
    forall i :: 0 <= i < |t| ==> t[i].freq == Uses(h, t[i].cmd) <= |h| && t[i].rate == Rating(h, t[i].cmd)
  }

  lemma LastUseStep(h: seq<Use>, u: Use, c: string)
    ensures LastUse(h + [u], c) == if c == u.cmd then |h| + 1 else LastUse(h, c)
  {
    assert (h + [u])[..|h|] == h;
  }

  lemma SinceIs(h: seq<Use>, n: nat, c: string)
    ensures c in Since(h, n) <==> LastUse(h, c) > n
  {
    if LastUse(h, c) > n {
      assert h[LastUse(h, c) - 1].cmd == c;
    }
  }

  lemma {:induction false} CommandCount(t: seq<Entry>)
    ensures |Commands(t)| <= |t|
    ensures Distinct(t) ==> |Commands(t)| == |t|
  {
    if t != [] {
      var p := t[..|t| - 1];
      CommandCount(p);
      var c := t[|t| - 1].cmd;
      assert forall i :: 0 <= i < |p| ==> p[i] == t[i];
      assert Commands(t) == Commands(p) + {c};
    }
  }

  lemma {:induction false} Smaller(a: set<string>, b: set<string>)
    requires a <= b
    ensures |a| <= |b|
  {
    if a != {} {
      var x :| x in a;
      Smaller(a - {x}, b - {x});
    }
  }

  // The table holds exactly the recent commands.
  lemma RecentIff(h: seq<Use>, t: seq<Entry>, c: string)
    requires Ordered(h, t) && Complete(h, t) && |t| <= MAX_COMMANDS
    ensures c in Commands(t) <==> Recent(h, c)
  {
    hide LastUse;
    CommandCount(t);
    var n := LastUse(h, c);
    forall d
      ensures d in Since(h, n) <==> LastUse(h, d) > n
    {
      SinceIs(h, n, d);
    }
    if c in Commands(t) {
      var i :| 0 <= i < |t| && t[i].cmd == c;
      assert Since(h, n) <= Commands(t) - {c};
      Smaller(Since(h, n), Commands(t) - {c});
    } else if n > 0 {
      assert Commands(t) <= Since(h, n);
      Smaller(Commands(t), Since(h, n));
    }
  }

  // ---------------------------------------------------------------- one use

  lemma FoundStep(h: seq<Use>, t: seq<Entry>, u: Use, k: nat)
    requires Ordered(h, t) && Complete(h, t) && k < |t| && t[k].cmd == u.cmd
    ensures var r := t[k := Used(t[k], |h| + 1, u.ok)];
            Ordered(h + [u], r) && Complete(h + [u], r)
  {
    hide LastUse, Distinct, Behind;
    var r := t[k := Used(t[k], |h| + 1, u.ok)];
    assert forall i :: 0 <= i < |t| ==> r[i].cmd == t[i].cmd;
    assert Commands(r) == Commands(t);
    SameDistinct(t, r);
    StampsBelow(h, t);
    OnlySlot(t, k);
    forall i | 0 <= i < |r|
      ensures r[i].last == LastUse(h + [u], r[i].cmd) > 0
    {
      LastUseStep(h, u, r[i].cmd);
    }
    hide Stamped;
    forall c | LastUse(h + [u], c) > 0 && c !in Commands(r)
      ensures Behind(LastUse(h + [u], c), r)
    {
      LastUseStep(h, u, c);
      assert t[k].cmd in Commands(t);
      LaterStamps(t, r, k, LastUse(h, c));
    }
    assert Complete(h + [u], r) by {
      forall c | LastUse(h + [u], c) > 0
        ensures c in Commands(t) || |t| >= MAX_COMMANDS
      {
        LastUseStep(h, u, c);
        assert t[k].cmd in Commands(t);
      }
    }
  }

  lemma LaterStamps(t: seq<Entry>, r: seq<Entry>, k: nat, n: nat)
    requires Behind(n, t) && k < |t| == |r| && (forall i :: 0 <= i < |t| && i != k ==> r[i] == t[i])
             && t[k].last <= r[k].last
    ensures Behind(n, r)
  {
  }

  lemma SameDistinct(t: seq<Entry>, r: seq<Entry>)
    requires Distinct(t) && |t| == |r| && forall i :: 0 <= i < |t| ==> r[i].cmd == t[i].cmd
    ensures Distinct(r)
  {
  }

  lemma OnlySlot(t: seq<Entry>, k: nat)
    requires Distinct(t) && k < |t|
    ensures forall i :: 0 <= i < |t| && i != k ==> t[i].cmd != t[k].cmd
  {
  }

  lemma AppendStep(h: seq<Use>, t: seq<Entry>, u: Use)
    requires Ordered(h, t) && Complete(h, t) && |t| < MAX_COMMANDS && u.cmd !in Commands(t) && |u.cmd| < MAX_LENGTH
    ensures var r := t + [Used(Fresh(u.cmd), |h| + 1, u.ok)];
            Ordered(h + [u], r) && Complete(h + [u], r)
  {
    hide LastUse;
    var r := t + [Used(Fresh(u.cmd), |h| + 1, u.ok)];
    assert forall i :: 0 <= i < |t| ==> r[i] == t[i];
    assert r[|t|].cmd == u.cmd;
    assert Commands(r) == Commands(t) + {u.cmd};
    forall c
      ensures LastUse(h + [u], c) == if c == u.cmd then |h| + 1 else LastUse(h, c)
    {
      LastUseStep(h, u, c);
    }
  }

  lemma EvictStep(h: seq<Use>, t: seq<Entry>, u: Use, k: nat)
    requires Ordered(h, t) && |t| == MAX_COMMANDS && u.cmd !in Commands(t) && |u.cmd| < MAX_LENGTH
    requires k < |t| && forall i :: 0 <= i < |t| ==> t[k].last <= t[i].last
    ensures var r := t[k := Used(Fresh(u.cmd), |h| + 1, u.ok)];
            Ordered(h + [u], r) && Complete(h + [u], r)
  {
    hide LastUse, Distinct, Behind;
    var r := t[k := Used(Fresh(u.cmd), |h| + 1, u.ok)];
    assert forall i :: 0 <= i < |t| && i != k ==> r[i] == t[i];
    assert r[k].cmd == u.cmd;
    ReplaceDistinct(t, r, k);
    OthersAhead(h, t, k);
    StampsBelow(h, t);
    forall i | 0 <= i < |r|
      ensures r[i].last == LastUse(h + [u], r[i].cmd) > 0
    {
      LastUseStep(h, u, r[i].cmd);
    }
    hide Stamped;
    forall c | LastUse(h + [u], c) > 0 && c !in Commands(r)
      ensures Behind(LastUse(h + [u], c), r)
    {
      LastUseStep(h, u, c);
      assert c != u.cmd;
      EvictBehind(h, t, r, k, c);
    }
  }

  lemma EvictBehind(h: seq<Use>, t: seq<Entry>, r: seq<Entry>, k: nat, c: string)
    requires Ordered(h, t) && k < |t| == |r|
             && (forall i :: 0 <= i < |t| && i != k ==> r[i] == t[i] && t[k].last < t[i].last)
    requires r[k].last == |h| + 1 && LastUse(h, c) > 0 && c !in Commands(r)
    ensures Behind(LastUse(h, c), r)
  {
    hide LastUse, Distinct;
    StampsBelow(h, t);
    LastUseBound(h, c);
    if c in Commands(t) {
      var i :| 0 <= i < |t| && t[i].cmd == c;
      assert i == k;
    }
  }

  lemma LastUseBound(h: seq<Use>, c: string)
    ensures LastUse(h, c) <= |h|
  {
  }

  lemma ReplaceDistinct(t: seq<Entry>, r: seq<Entry>, k: nat)
    requires Distinct(t) && k < |t| == |r| && (forall i :: 0 <= i < |t| && i != k ==> r[i] == t[i])
             && r[k].cmd !in Commands(t)
    ensures Distinct(r)
  {
  }

  // Different commands were last used at different times.
  lemma OthersAhead(h: seq<Use>, t: seq<Entry>, k: nat)
    requires Ordered(h, t) && k < |t| && forall i :: 0 <= i < |t| ==> t[k].last <= t[i].last
    ensures forall i :: 0 <= i < |t| && i != k ==> t[k].last < t[i].last
  {
    forall i | 0 <= i < |t| && i != k
      ensures t[k].last < t[i].last
    {
      assert h[LastUse(h, t[i].cmd) - 1].cmd == t[i].cmd && h[LastUse(h, t[k].cmd) - 1].cmd == t[k].cmd;
    }
  }

  lemma OrderedStep(h: seq<Use>, t: seq<Entry>, u: Use)
    requires Ordered(h, t) && Complete(h, t) && |t| <= MAX_COMMANDS && 0 < |u.cmd| < MAX_LENGTH
    ensures Ordered(h + [u], Learned(t, |h| + 1, u)) && Complete(h + [u], Learned(t, |h| + 1, u))
  {
    hide Ordered, Complete, LastUse;
    var k := Find(t, u.cmd);
    if k < |t| {
      FoundStep(h, t, u, k);
    } else {
      assert u.cmd !in Commands(t);
      if |t| < MAX_COMMANDS {
        AppendStep(h, t, u);
      } else {
        StampsBelow(h, t);
        var o := Oldest(t, |t|, |h| + 1);
        assert o.1 < |h| + 1 by {
          assert o.1 <= t[0].last;
        }
        EvictStep(h, t, u, o.0);
      }
    }
  }

  lemma StampsBelow(h: seq<Use>, t: seq<Entry>)
    requires Ordered(h, t)
    ensures forall i :: 0 <= i < |t| ==> t[i].last <= |h|
  {
  }

  lemma CountsSame(h: seq<Use>, u: Use, c: string)
    ensures c != u.cmd ==> Uses(h + [u], c) == Uses(h, c) && Rating(h + [u], c) == Rating(h, c)
    ensures c == u.cmd ==> Uses(h + [u], c) == (if Recent(h, c) then Uses(h, c) + 1 else 1)
    ensures c == u.cmd ==> Rating(h + [u], c) == Blend(if Recent(h, c) then Rating(h, c) else 100, u.ok)
  {
    assert (h + [u])[..|h|] == h;
  }

  lemma CountedStep(h: seq<Use>, t: seq<Entry>, u: Use)
    requires Ordered(h, t) && Complete(h, t) && Counted(h, t) && |t| <= MAX_COMMANDS && 0 < |u.cmd| < MAX_LENGTH
             && |h| + 1 < TWO_32
    ensures Counted(h + [u], Learned(t, |h| + 1, u))
  {
    RecentIff(h, t, u.cmd);
    hide LastUse, Recent, Complete, Uses, Rating, Ordered, Blend, Learned, Used;
    var r := Learned(t, |h| + 1, u);
    forall i | 0 <= i < |r|
      ensures r[i].freq == Uses(h + [u], r[i].cmd) <= |h| + 1 && r[i].rate == Rating(h + [u], r[i].cmd)
    {
      SlotKept(h, t, u, i);
      if i < |t| && t[i].cmd == u.cmd && r[i] == Used(t[i], |h| + 1, u.ok) {
        assert u.cmd in Commands(t);
        UsedCounts(h, t[i], u);
      } else if i < |t| && r[i] == t[i] {
        CountsSame(h, u, r[i].cmd);
      } else {
        FreshCounts(h, u);
      }
    }
  }

  lemma UsedCounts(h: seq<Use>, e: Entry, u: Use)
    requires e.cmd == u.cmd && e.freq == Uses(h, e.cmd) <= |h| && e.rate == Rating(h, e.cmd) && Recent(h, u.cmd)
             && |h| + 1 < TWO_32
    ensures var r := Used(e, |h| + 1, u.ok);
            r.freq == Uses(h + [u], u.cmd) <= |h| + 1 && r.rate == Rating(h + [u], u.cmd)
  {
    hide Recent, Blend, Uses, Rating, LastUse, Since;
    CountsSame(h, u, u.cmd);
  }

  lemma FreshCounts(h: seq<Use>, u: Use)
    requires 0 < |u.cmd| < MAX_LENGTH && !Recent(h, u.cmd)
    ensures var r := Used(Fresh(u.cmd), |h| + 1, u.ok);
            r.cmd == u.cmd && r.freq == Uses(h + [u], u.cmd) <= |h| + 1 && r.rate == Rating(h + [u], u.cmd)
  {
    hide Recent, Blend, Uses, Rating, LastUse, Since;
    CountsSame(h, u, u.cmd);
  }

  // Each slot of the new table holds an old entry or the used command.
  lemma SlotKept(h: seq<Use>, t: seq<Entry>, u: Use, i: nat)
    requires |t| <= MAX_COMMANDS && 0 < |u.cmd| < MAX_LENGTH && i < |Learned(t, |h| + 1, u)| && Ordered(h, t)
    ensures var r := Learned(t, |h| + 1, u)[i];
            || (i < |t| && r == t[i] && r.cmd != u.cmd)
            || (i < |t| && t[i].cmd == u.cmd && r == Used(t[i], |h| + 1, u.ok))
            || (u.cmd !in Commands(t) && r == Used(Fresh(u.cmd), |h| + 1, u.ok))
  {
  }

  // The invariants that make the table a cache of the most recent commands.
  ghost predicate Lru(h: seq<Use>, t: seq<Entry>) {
    Ordered(h, t) && Complete(h, t) && Counted(h, t)
  }

  lemma {:induction false} LruKept(h: seq<Use>)
    requires Plain(h)
    ensures After(h).1 == |h| && Lru(h, After(h).0)
  {
    hide Ordered, Complete, Counted, Learned, After;
    if h == [] {
      LruEmpty();
    } else {
      var p, u := h[..|h| - 1], h[|h| - 1];
      assert h == p + [u];
      LruKept(p);
      AfterStep(p, u);
      OrderedStep(p, After(p).0, u);
      CountedStep(p, After(p).0, u);
    }
  }

  lemma LruEmpty()
    ensures After([]) == ([], 0) && Lru([], [])
  {
  }

  lemma AfterStep(h: seq<Use>, u: Use)
    requires u.cmd != ""
    ensures var now := (After(h).1 + 1) % TWO_32;
            After(h + [u]) == (Learned(After(h).0, now, u), now)
  {
    assert (h + [u])[..|h|] == h;
  }

  /** After any history of non-empty commands shorter than 64 characters, the table holds
      exactly the 32 most recently used commands, each once, with the time of its last use
      and with frequency and success rate over the uses since it was last entered. */
  lemma TableIsLru(h: seq<Use>)
    requires Plain(h)
    ensures var t := After(h).0;
            && (forall c :: c in Commands(t) <==> Recent(h, c))
            && (forall i, j :: 0 <= i < j < |t| ==> t[i].cmd != t[j].cmd)
            && forall i :: 0 <= i < |t| ==>
                 && t[i].last == LastUse(h, t[i].cmd) && t[i].freq == Uses(h, t[i].cmd)
                 && t[i].rate == Rating(h, t[i].cmd) <= 100
  {
    LruKept(h);
    hide After, Recent, Complete, LastUse, Uses, Rating;
    var t := After(h).0;
    forall c
      ensures c in Commands(t) <==> Recent(h, c)
    {
      RecentIff(h, t, c);
    }
    forall i | 0 <= i < |t|
      ensures Rating(h, t[i].cmd) <= 100
    {
      RatingBound(h, t[i].cmd);
    }
  }

  /** A success moves the rate up by a twentieth of the way to 100, rounded down, and a
      failure down by a twentieth of itself, rounded up: failures always count, but a success
      raises only a rate of at most 80. */
  lemma RateMoves(rate: nat)
    requires rate <= 100
    ensures Blend(rate, true) == rate + (100 - rate) / 20 && Blend(rate, false) == rate - (rate + 19) / 20
    ensures rate <= Blend(rate, true) <= 100 && (rate < Blend(rate, true) <==> rate <= 80)
    ensures Blend(rate, false) <= rate && (Blend(rate, false) < rate <==> rate > 0)
  {
  }

  // How the uses of c went.
  function Outcomes(h: seq<Use>, c: string): seq<bool> {
    if h == [] then []
    else Outcomes(h[..|h| - 1], c) + if h[|h| - 1].cmd == c then [h[|h| - 1].ok] else []
  }

  // The rate of a new entry used with these outcomes.
  function Rated(outcomes: seq<bool>): nat {
    if outcomes == [] then 100 else Blend(Rated(outcomes[..|outcomes| - 1]), outcomes[|outcomes| - 1])
  }

  /** The rate of a command depends on nothing but the outcomes of its counted uses, and
      these are its latest. */
  lemma {:induction false} RatingIsRated(h: seq<Use>, c: string)
    ensures Uses(h, c) <= |Outcomes(h, c)|
    ensures Rating(h, c) == Rated(Outcomes(h, c)[|Outcomes(h, c)| - Uses(h, c)..])
  {
    hide Recent, LastUse;
    if h != [] {
      var p, u := h[..|h| - 1], h[|h| - 1];
      RatingIsRated(p, c);
      var a, b := Outcomes(p, c), Outcomes(h, c);
      if u.cmd != c {
        assert b == a;
      } else if Recent(p, c) {
        assert b[|b| - Uses(h, c)..] == a[|a| - Uses(p, c)..] + [u.ok];
        assert (a[|a| - Uses(p, c)..] + [u.ok])[..Uses(p, c)] == a[|a| - Uses(p, c)..];
      } else {
        assert b[|b| - 1..] == [u.ok];
      }
    }
  }

  /** Trust lost is never regained: the rate is 100 if no use failed, and at most 95 for ever
      after a failure, however many successes follow. */
  lemma {:induction false} TrustLost(outcomes: seq<bool>)
    ensures if false in outcomes then Rated(outcomes) <= 95 else Rated(outcomes) == 100
  {
    if outcomes != [] {
      var p, ok := outcomes[..|outcomes| - 1], outcomes[|outcomes| - 1];
      assert outcomes == p + [ok];
      TrustLost(p);
    }
  }

  /** Success rates are percentages. */
  lemma {:induction false} RatingBound(h: seq<Use>, c: string)
    ensures Rating(h, c) <= 100
  {
    if h != [] {
      RatingBound(h[..|h| - 1], c);
    }
  }

  // What every reachable table holds: commands that fit, as stored.
  ghost predicate Fitting(t: seq<Entry>) {
    forall i :: 0 <= i < |t| ==> |t[i].cmd| < MAX_LENGTH
  }

  lemma {:induction false} AlwaysFitting(h: seq<Use>)
    ensures Fitting(After(h).0)
  {
    if h != [] {
      AlwaysFitting(h[..|h| - 1]);
    }
  }

  // The command as it is stored.
  function Stored(cmd: string): string {
    Fresh(cmd).cmd
  }

  /** In every reachable table, a command just learned is found again if and only if it has
      fewer than 64 characters: a longer one is cut off and never matches. */
  lemma FoundAfterLearning(h: seq<Use>, now: nat, u: Use)
    ensures var t := After(h).0;
            var r := Learned(t, now, u);
            Find(r, u.cmd) < |r| <==> |u.cmd| < 64
  {
    AlwaysFitting(h);
    var t := After(h).0;
    var r := Learned(t, now, u);
    var k := Find(t, u.cmd);
    if |u.cmd| < MAX_LENGTH {
      var at := if k < |t| then k else if |t| < MAX_COMMANDS then |t| else Oldest(t, |t|, now).0;
      assert at < |r| && r[at].cmd == u.cmd;
    } else {
      assert forall i :: 0 <= i < |r| ==> |r[i].cmd| < MAX_LENGTH;
    }
  }

  /** So learning a command keeps the table's commands distinct if and only if the command
      fits, or its first 63 characters are no entry but the one it replaces. */
  lemma DistinctAfterLearning(t: seq<Entry>, now: nat, u: Use)
    requires |t| <= MAX_COMMANDS && Distinct(t) && Fitting(t)
    ensures Distinct(Learned(t, now, u))
            <==> |u.cmd| < MAX_LENGTH
                 || forall i :: 0 <= i < |t| && t[i].cmd == Stored(u.cmd) ==>
                      |t| == MAX_COMMANDS && i == Oldest(t, |t|, now).0
  {
    var r := Learned(t, now, u);
    var k := Find(t, u.cmd);
    if k < |t| {
      SameDistinct(t, r);
    } else if |t| < MAX_COMMANDS {
      AppendDistinct(t, r, Stored(u.cmd));
    } else {
      ReplaceDistinctIff(t, r, Oldest(t, |t|, now).0);
    }
  }

  lemma AppendDistinct(t: seq<Entry>, r: seq<Entry>, c: string)
    requires Distinct(t) && |r| == |t| + 1 && r[..|t|] == t && r[|t|].cmd == c
    ensures Distinct(r) <==> forall i :: 0 <= i < |t| ==> t[i].cmd != c
  {
    assert forall i :: 0 <= i < |t| ==> r[i] == r[..|t|][i] == t[i];
  }

  lemma ReplaceDistinctIff(t: seq<Entry>, r: seq<Entry>, at: nat)
    requires Distinct(t) && at < |t| == |r| && forall i :: 0 <= i < |t| && i != at ==> r[i] == t[i]
    ensures Distinct(r) <==> forall i :: 0 <= i < |t| && i != at ==> t[i].cmd != r[at].cmd
  {
    if exists i :: 0 <= i < |t| && i != at && t[i].cmd == r[at].cmd {
      var i :| 0 <= i < |t| && i != at && t[i].cmd == r[at].cmd;
      var a, b := if i < at then i else at, if i < at then at else i;
      assert r[a].cmd == r[b].cmd;
    }
  }

  /** A 64-character command used twice is entered twice, under the same 63 characters. */
  lemma LongCommandExample(c: string)
    requires |c| == 64
    ensures var t := After([Use(c, true), Use(c, false)]).0;
            |t| == 2 && t[0].cmd == t[1].cmd && !Distinct(t)
  {
    var u, w := Use(c, true), Use(c, false);
    AfterStep([], u);
    AfterStep([u], w);
    assert [] + [u] == [u] && [u] + [w] == [u, w];
    var t := After([u]).0;
    assert t == [Used(Fresh(c), 1, true)];
    assert Find(t, c) == 1;
    assert After([u, w]).0 == t + [Used(Fresh(c), 2, false)];
  }

  // The history without empty commands.
  function NonEmpty(h: seq<Use>): seq<Use> {
    if h == [] then []
    else NonEmpty(h[..|h| - 1]) + if h[|h| - 1].cmd == "" then [] else [h[|h| - 1]]
  }

  /** Empty commands leave no trace, not even in the time stamps. */
  lemma {:induction false} EmptyIgnored(h: seq<Use>)
    ensures After(NonEmpty(h)) == After(h)
  {
    if h != [] {
      var p, u := h[..|h| - 1], h[|h| - 1];
      EmptyIgnored(p);
      if u.cmd != "" {
        AfterStep(NonEmpty(p), u);
      } else {
        assert NonEmpty(h) == NonEmpty(p);
      }
    }
  }
}
