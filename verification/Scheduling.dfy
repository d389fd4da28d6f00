/** Who gets the processor: what the nested scan of the scheduler amounts to over repeated calls. */
module Scheduling {
  import opened Words
  import opened Processes
  import opened ProcessRuns

  /** The first and the last of the ready processes of top priority. */
  ghost predicate First(t: Table, i: nat) {
    Top(t, i) && forall k: nat :: Top(t, k) ==> i <= k
  }

  ghost predicate Last(t: Table, i: nat) {
    Top(t, i) && forall k: nat :: Top(t, k) ==> k <= i
  }

  /** The scheduler picks a ready process of top priority: the last one if it lies behind the current
      slot, and the first one otherwise. */
  lemma PickExact(s: Sys)
    requires Inv(s)
    ensures Schedule(s).current == Pick(s) && Top(Preempted(s), Pick(s))
    ensures if exists k: nat :: k > s.current && Top(Preempted(s), k) then Last(Preempted(s), Pick(s)) else First(Preempted(s), Pick(s))
  {
    InvIs(s);
    NeverStuck(s);
    TopPicked(s);
  }

  lemma TopPicked(s: Sys)
    requires Occupied(s.table, s.current) && Occupied(s.table, 0) && Chosen(Preempted(s), s.current, 16, Pick(s))
    ensures if exists k: nat :: k > s.current && Top(Preempted(s), k) then Last(Preempted(s), Pick(s)) else First(Preempted(s), Pick(s))
  {
    var t := Preempted(s);
    if k: nat :| k > s.current && Top(t, k) {
      assert TopBelow(t, 16, k);
    } else {
      forall k: nat | k > s.current ensures !TopBelow(t, 16, k) {
        assert !Top(t, k);
      }
    }
  }

  /** `s` is what the scheduler makes of the table `t` when it is called in slot `current`: a process that
      ran there is ready again, the last of the ready processes of top priority runs if it lies behind
      that slot, the first of them otherwise, and no other slot changes. */
  ghost predicate HandsOver(t: Table, current: nat, s: Sys)
    requires Occupied(t, current)
  {
    var p := t[current].value;
    var r := t[current := Some(if p.state == Running then p.(state := Ready) else p)];
    && (if exists k: nat :: k > current && Top(r, k) then Last(r, s.current) else First(r, s.current))
    && s.current < 16 && s.table[s.current] == Some(r[s.current].value.(state := Running))
    && (forall i :: 0 <= i < 16 && i != s.current ==> s.table[i] == r[i])
  }

  lemma ScheduleExact(s: Sys)
    requires Almost(s)
    ensures HandsOver(s.table, s.current, Schedule(s))
    ensures Schedule(s) == s.(table := Schedule(s).table, current := Schedule(s).current)
  {
    NeverStuck(s);
    var r := Preempted(s);
    var p := s.table[s.current].value;
    assert r == s.table[s.current := Some(if p.state == Running then p.(state := Ready) else p)];
    TopPicked(s);
  }

  /** A sleep blocks the caller until its time and hands the processor on. The idle process does not sleep. */
  ghost predicate Slept(s: Sys, ms: u32, s': Sys)
    requires Occupied(s.table, s.current)
  {
    var p := s.table[s.current].value;
    if p.pid == 0 then s' == s
    else
      && HandsOver(s.table[s.current := Some(p.(state := Blocked, wakeTime := (s.ticks + ms) % 0x1_0000_0000))], s.current, s')
      && s' == s.(table := s'.table, current := s'.current)
  }

  lemma SleepPicks(s: Sys, ms: u32)
    requires Inv(s)
    ensures Slept(s, ms, Sleep(s, ms))
  {
    var p := s.table[s.current].value;
    if p.pid != 0 {
      InvIs(s);
      StoppedPicks(s, p.(state := Blocked, wakeTime := Add32(s.ticks, ms)));
    }
  }

  /** So does the kill of the caller, which stays behind terminated. */
  lemma KillPicks(s: Sys, pid: u32)
    requires Inv(s) && pid != 0 && Find(s.table, pid) == s.current
    ensures var s', p := Kill(s, pid), s.table[s.current].value;
            && HandsOver(s.table[s.current := Some(p.(state := Terminated))], s.current, s')
            && s' == s.(table := s'.table, current := s'.current)
  {
    InvIs(s);
    StoppedPicks(s, s.table[s.current].value.(state := Terminated));
  }

  lemma StoppedPicks(s: Sys, p: Pcb)
    requires Inv(s) && s.table[s.current].value.pid != 0
    requires PcbInv(p) && p.pid == s.table[s.current].value.pid && (p.state == Blocked || p.state == Terminated)
    ensures var s' := s.(table := s.table[s.current := Some(p)]);
            && Occupied(s'.table, 0) && HandsOver(s'.table, s.current, Schedule(s'))
            && Schedule(s') == s.(table := Schedule(s').table, current := Schedule(s').current)
  {
    StoppedKeeps(s, p);
    ScheduleExact(s.(table := s.table[s.current := Some(p)]));
  }

  /** The three cases of a kill: nothing for idle and unknown pids, the slot emptied for another process,
      and for the caller as above. */
  ghost predicate Killed(s: Sys, pid: u32, s': Sys) {
    var i := Find(s.table, pid);
    if pid == 0 || i == 16 then s' == s
    else if i == s.current then
      && HandsOver(s.table[i := Some(s.table[i].value.(state := Terminated))], i, s') && s'.current != i
      && s' == s.(table := s'.table, current := s'.current)
    else
      && s' == s.(table := s.table[i := None], count := s'.count) && s'.count == s.count - 1
      && (UniquePids(s) ==> Find(s'.table, pid) == 16)
  }

  lemma KillExact(s: Sys, pid: u32)
    requires Inv(s)
    ensures Killed(s, pid, Kill(s, pid))
  {
    KilledExact(s, pid);
    if pid != 0 && Find(s.table, pid) == s.current {
      KillPicks(s, pid);
      InvIs(s);
      StoppedKeeps(s, s.table[s.current].value.(state := Terminated));
    }
  }

  /** `u` is the table `t` with every sleeper ready whose time has come, and nothing else changed. */
  ghost predicate DueWoken(t: Table, now: u32, u: Table) {
    forall i :: 0 <= i < 16 ==>
      if InState(t, i, Blocked) && 0 < t[i].value.wakeTime <= now
      then u[i] == Some(t[i].value.(state := Ready, wakeTime := 0))
      else u[i] == t[i]
  }

  lemma CheckSleepingExact(s: Sys)
    ensures DueWoken(s.table, s.ticks, CheckSleeping(s).table) && CheckSleeping(s) == s.(table := CheckSleeping(s).table)
  {
  }

  /** A tick counts, wakes the sleepers that are due and, every tenth time, hands the processor on. */
  ghost predicate Ticked(s: Sys, s': Sys) {
    var now := (s.ticks + 1) % 0x1_0000_0000;
    && s' == s.(ticks := now, table := s'.table, current := s'.current)
    && exists u: Table :: DueWoken(s.table, now, u) && Occupied(u, s.current) && MayHandOver(u, s.current, now, s')
  }

  ghost predicate MayHandOver(u: Table, current: nat, now: u32, s': Sys)
    requires Occupied(u, current)
  {
    if now % 10 == 0 then HandsOver(u, current, s') else s'.table == u && s'.current == current
  }

  lemma TimePasses(s: Sys, now: u32)
    requires Inv(s)
    ensures Inv(s.(ticks := now))
  {
    InvIs(s);
  }

  lemma TickHands(s: Sys) returns (s': Sys)
    requires Inv(s)
    ensures s' == (if s.ticks % 10 == 0 then Schedule(s) else s)
    ensures MayHandOver(s.table, s.current, s.ticks, s') && s' == s.(table := s'.table, current := s'.current)
  {
    s' := s;
    if s.ticks % 10 == 0 {
      InvIs(s);
      ScheduleExact(s);
      s' := Schedule(s);
    }
  }

  lemma TickExact(s: Sys)
    requires Inv(s)
    ensures Ticked(s, Tick(s))
  {
    var s1 := s.(ticks := Add32(s.ticks, 1));
    CheckSleepingExact(s1);
    TimePasses(s, s1.ticks);
    CheckSleepingKeeps(s1);
    var s2 := CheckSleeping(s1);
    var s' := TickHands(s2);
    assert s' == Tick(s);
    assert DueWoken(s.table, s1.ticks, s2.table);
  }

  /** Who could run is not changed by who runs. */
  lemma ScheduleSame(s: Sys)
    requires Inv(s)
    ensures Inv(Schedule(s)) && Preempted(Schedule(s)) == Preempted(s)
  {
    InvIs(s);
    NeverStuck(s);
    ScheduleKeeps(s);
    var s' := Schedule(s);
    var n := Pick(s);
    assert s'.table == Preempted(s)[n := Some(Preempted(s)[n].value.(state := Running))];
    assert Preempted(s')[n] == Preempted(s)[n];
  }

  /** After `n` calls of the scheduler with nothing else happening. */
  function After(s: Sys, n: nat): (r: Sys)
    requires Inv(s)
    ensures Inv(r)
  {
    if n == 0 then s
    else
      ScheduleSame(After(s, n - 1));
      Schedule(After(s, n - 1))
  }

  lemma {:induction false} AfterSame(s: Sys, n: nat)
    requires Inv(s)
    ensures Preempted(After(s, n)) == Preempted(s)
  {
    if n > 0 {
      AfterSame(s, n - 1);
      ScheduleSame(After(s, n - 1));
    }
  }

  lemma NextTurn(s: Sys, lo: nat, hi: nat)
    requires Inv(s) && First(Preempted(s), lo) && Last(Preempted(s), hi)
    ensures Schedule(s).current == lo || Schedule(s).current == hi
    ensures s.current == hi ==> Schedule(s).current == lo
    ensures s.current == lo ==> Schedule(s).current == hi
  {
    PickExact(s);
  }

  /** From the first call on, the processor goes back and forth between the first and the last. */
  lemma Alternates(s: Sys, n: nat, lo: nat, hi: nat)
    requires Inv(s) && First(Preempted(s), lo) && Last(Preempted(s), hi)
    ensures n > 0 ==> After(s, n).current == lo || After(s, n).current == hi
    ensures After(s, n).current == hi ==> After(s, n + 1).current == lo
    ensures After(s, n).current == lo ==> After(s, n + 1).current == hi
  {
    AfterSame(s, n);
    NextTurn(After(s, n), lo, hi);
    if n > 0 {
      AfterSame(s, n - 1);
      NextTurn(After(s, n - 1), lo, hi);
    }
  }

  /** Two processes of top priority take turns. */
  lemma TwoAlternate(s: Sys, n: nat, a: nat, b: nat)
    requires Inv(s) && a != b && forall k: nat :: Top(Preempted(s), k) <==> k == a || k == b
    ensures n > 0 ==> After(s, n).current in {a, b} && After(s, n + 1).current in {a, b} - {After(s, n).current}
  {
    Alternates(s, n, if a < b then a else b, if a < b then b else a);
  }

  lemma FirstAndLast(s: Sys) returns (lo: nat, hi: nat)
    requires Inv(s)
    ensures First(Preempted(s), lo) && Last(Preempted(s), hi)
  {
    var t := Preempted(s);
    PickExact(s);
    var n := Pick(s);
    lo, hi := n, n;
    while exists k: nat :: k < lo && Top(t, k)
      invariant Top(t, lo)
      decreases lo
    {
      var k: nat :| k < lo && Top(t, k);
      lo := k;
    }
    while exists k: nat :: k > hi && Top(t, k)
      invariant Top(t, hi)
      decreases 16 - hi
    {
      var k: nat :| k > hi && Top(t, k);
      hi := k;
    }
  }

  /** The process in slot `m` gets the processor after some number of calls. */
  ghost predicate GetsTurn(s: Sys, m: nat)
    requires Inv(s)
  {
    exists n: nat :: n > 0 && After(s, n).current == m
  }

  /** A process ever gets a turn exactly when it is the first or the last of those of top priority:
      with three or more, those in between never run. */
  lemma TurnIff(s: Sys, m: nat)
    requires Inv(s)
    ensures GetsTurn(s, m) <==> First(Preempted(s), m) || Last(Preempted(s), m)
  {
    var lo, hi := FirstAndLast(s);
    if GetsTurn(s, m) {
      var n: nat :| n > 0 && After(s, n).current == m;
      Alternates(s, n, lo, hi);
    }
    if First(Preempted(s), m) || Last(Preempted(s), m) {
      assert m == lo || m == hi;
      Alternates(s, 1, lo, hi);
      assert After(s, 1).current == m || After(s, 2).current == m;
    }
  }

  ghost predicate Between(t: Table, m: nat) {
    Top(t, m) && (exists k: nat :: k < m && Top(t, k)) && (exists k: nat :: k > m && Top(t, k))
  }

  lemma BetweenIff(t: Table, m: nat)
    requires Top(t, m)
    ensures First(t, m) || Last(t, m) <==> !Between(t, m)
  {
  }

  /** Round robin among all processes of top priority holds exactly when there are at most two. */
  lemma FairIff(s: Sys)
    requires Inv(s)
    ensures (forall m: nat :: Top(Preempted(s), m) ==> GetsTurn(s, m)) <==> !exists m: nat :: Between(Preempted(s), m)
  {
    var t := Preempted(s);
    forall m: nat | Top(t, m) ensures GetsTurn(s, m) <==> !Between(t, m) {
      TurnIff(s, m);
      BetweenIff(t, m);
    }
    if m: nat :| Between(t, m) {
      assert Top(t, m) && !GetsTurn(s, m);
    }
  }

  // ---------------------------------------------------------------- over runs of ticks and yields

  /** Nobody waits for a tick. */
  predicate NoSleepers(t: Table) {
    forall i :: 0 <= i < 16 ==> !(t[i].Some? && t[i].value.state == Blocked && t[i].value.wakeTime > 0)
  }

  predicate JustTime(es: seq<Event>) {
    forall k :: 0 <= k < |es| ==> es[k].OnTick? || es[k].OnYield?
  }

  /** The event calls the scheduler: a yield, or every tenth tick. */
  predicate Schedules(s: Sys, e: Event) {
    e.OnYield? || (e.OnTick? && Add32(s.ticks, 1) % 10 == 0)
  }

  /** How often the scheduler is called in a run. */
  function Calls(s: Sys, es: seq<Event>): nat
    requires Inv(s)
  {
    if es == [] then 0
    else
      var init := es[..|es| - 1];
      Calls(s, init) + if Schedules(Run(s, init), es[|es| - 1]) then 1 else 0
  }

  /** The same but for the ticks. */
  predicate Alike(a: Sys, b: Sys) {
    a.(ticks := b.ticks) == b
  }

  lemma ScheduleWakesNone(s: Sys)
    requires Inv(s) && NoSleepers(s.table)
    ensures NoSleepers(Schedule(s).table)
  {
    InvIs(s);
    NeverStuck(s);
  }

  lemma {:induction false} AfterWakesNone(s: Sys, n: nat)
    requires Inv(s) && NoSleepers(s.table)
    ensures NoSleepers(After(s, n).table)
  {
    if n > 0 {
      AfterWakesNone(s, n - 1);
      ScheduleWakesNone(After(s, n - 1));
    }
  }

  /** One tick or yield, when nobody waits for a tick, is a call of the scheduler or nothing but time. */
  lemma TimeStep(s: Sys, b: Sys, e: Event)
    requires Inv(s) && Inv(b) && Alike(s, b) && NoSleepers(b.table) && (e.OnTick? || e.OnYield?)
    ensures if Schedules(s, e) then Alike(Step(s, e), Schedule(b)) else Alike(Step(s, e), b)
  {
    if e.OnTick? {
      var s' := s.(ticks := Add32(s.ticks, 1));
      assert CheckSleeping(s').table == s'.table;
    }
  }

  lemma TimeNext(s: Sys, n: nat, r: Sys, e: Event, n': nat)
    requires Inv(s) && NoSleepers(s.table) && Inv(r) && Alike(r, After(s, n)) && (e.OnTick? || e.OnYield?)
    requires n' == n + if Schedules(r, e) then 1 else 0
    ensures Alike(Step(r, e), After(s, n'))
  {
    AfterWakesNone(s, n);
    TimeStep(r, After(s, n), e);
  }

  lemma CallsSnoc(s: Sys, init: seq<Event>, e: Event)
    requires Inv(s)
    ensures Calls(s, init + [e]) == Calls(s, init) + if Schedules(Run(s, init), e) then 1 else 0
  {
    assert (init + [e])[..|init|] == init;
  }

  /** A run of ticks and yields in which nobody wakes is as many calls of the scheduler. */
  lemma {:induction false} TimeRun(s: Sys, es: seq<Event>)
    requires Inv(s) && NoSleepers(s.table) && JustTime(es)
    ensures Alike(Run(s, es), After(s, Calls(s, es)))
  {
    if es != [] {
      var init, e := es[..|es| - 1], es[|es| - 1];
      TimeRun(s, init);
      RunSnoc(s, init, e);
      CallsSnoc(s, init, e);
      assert init + [e] == es;
      TimeNext(s, Calls(s, init), Run(s, init), e, Calls(s, es));
    }
  }

  lemma {:induction false} OnlyYields(s: Sys, n: nat)
    requires Inv(s)
    ensures Calls(s, Repeat(n, OnYield)) == n
  {
    if n > 0 {
      OnlyYields(s, n - 1);
      assert Repeat(n, OnYield)[..n - 1] == Repeat(n - 1, OnYield);
    }
  }

  /** Over all runs of ticks and yields in which nobody wakes: a process has the processor after some call
      of the scheduler if and only if it is the first or the last of those of top priority. */
  lemma TurnInRunIff(s: Sys, m: nat)
    requires Inv(s) && NoSleepers(s.table)
    ensures (exists es :: JustTime(es) && Calls(s, es) > 0 && Run(s, es).current == m)
            <==> First(Preempted(s), m) || Last(Preempted(s), m)
  {
    TurnIff(s, m);
    if es :| JustTime(es) && Calls(s, es) > 0 && Run(s, es).current == m {
      TimeRun(s, es);
      assert After(s, Calls(s, es)).current == m;
    }
    if GetsTurn(s, m) {
      var n: nat :| n > 0 && After(s, n).current == m;
      var es := Repeat(n, OnYield);
      OnlyYields(s, n);
      TimeRun(s, es);
      assert JustTime(es) && Calls(s, es) > 0 && Run(s, es).current == m;
    }
  }

  /** Three processes just created: the one in the middle is of top priority and never runs. */
  lemma MiddleStarves(s: Sys, wakeTime: u32, ticks: u32)
    requires s == ThreeCreated(wakeTime, ticks)
    ensures Inv(s) && Top(Preempted(s), 2) && !GetsTurn(s, 2)
    ensures forall es :: JustTime(es) && Calls(s, es) > 0 ==> Run(s, es).current != 2
  {
    CreatedInv(wakeTime, ticks);
    CreatedTable(wakeTime, ticks);
    var t := Preempted(s);
    assert t == s.table;
    assert Top(t, 1) && Top(t, 2) && Top(t, 3);
    assert Between(t, 2);
    BetweenIff(t, 2);
    TurnIff(s, 2);
    TurnInRunIff(s, 2);
  }

  lemma CreatedInv(wakeTime: u32, ticks: u32)
    ensures Inv(ThreeCreated(wakeTime, ticks))
  {
    var s0 := Start(wakeTime, ticks);
    StartInv(wakeTime, ticks);
    CreateKeeps(s0, AllOk);
    var s1 := Create(s0, AllOk).0;
    CreateKeeps(s1, AllOk);
    CreateKeeps(Create(s1, AllOk).0, AllOk);
  }

  function ThreeCreated(wakeTime: u32, ticks: u32): Sys {
    Create(Create(Create(Start(wakeTime, ticks), AllOk).0, AllOk).0, AllOk).0
  }

  /** Idle and the processes with pids 1, ..., n - 1, all ready, each in the slot of its pid. */
  ghost predicate Filled(s: Sys, n: nat, wakeTime: u32) {
    && s.current == 0 && s.count == n == s.nextPid && s.table[0] == Some(Pcb(0, Ready, 0, wakeTime, EMPTY))
    && (forall i :: 1 <= i < n && i < 16 ==> s.table[i] == Some(Pcb(i, Ready, 5, 0, EMPTY)))
    && (forall i :: n <= i < 16 ==> s.table[i] == None)
  }

  lemma CreateFills(s: Sys, n: nat, wakeTime: u32)
    requires Filled(s, n, wakeTime) && 0 < n < 16
    ensures Filled(Create(s, AllOk).0, n + 1, wakeTime)
  {
    FreeSlotIs(s.table, n);
    assert Create(s, AllOk).0.table == s.table[n := Some(Pcb(n, Ready, 5, 0, EMPTY))];
  }

  lemma CreatedTable(wakeTime: u32, ticks: u32)
    ensures Filled(ThreeCreated(wakeTime, ticks), 4, wakeTime)
  {
    var s0 := Start(wakeTime, ticks);
    assert Filled(s0, 1, wakeTime);
    CreateFills(s0, 1, wakeTime);
    var s1 := Create(s0, AllOk).0;
    CreateFills(s1, 2, wakeTime);
    CreateFills(Create(s1, AllOk).0, 3, wakeTime);
  }

  lemma FreeSlotIs(t: Table, i: nat)
    requires i < 16 && t[i].None? && forall j :: 0 <= j < i ==> t[j].Some?
    ensures FreeSlot(t) == i
  {
  }
}
