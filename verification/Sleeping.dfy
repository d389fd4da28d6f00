/** How long a sleep lasts, over every run and for every tick it may start at. */
module Sleeping {
  import opened Words
  import opened Processes
  import opened ProcessRuns

  // ---------------------------------------------------------------- ticks

  /** The tick `n` ticks after tick `t`; ticks wrap at 32 bits. */
  function TickAfter(t: u32, n: nat): u32 {
    (t + n) % 0x1_0000_0000
  }

  lemma TickAfterNext(t: u32, n: nat)
    ensures TickAfter(TickAfter(t, 1), n) == TickAfter(t, n + 1) == TickAfter(TickAfter(t, n), 1)
  {
  }

  function Ticks(es: seq<Event>): nat {
    if es == [] then 0 else (if es[0].OnTick? then 1 else 0) + Ticks(es[1..])
  }

  lemma TicksAfterSleep(ms: u32, es: seq<Event>)
    ensures Ticks([OnSleep(ms)] + es) == Ticks(es)
  {
    assert ([OnSleep(ms)] + es)[1..] == es;
  }

  lemma StepTicks(s: Sys, e: Event)
    requires Inv(s)
    ensures Step(s, e).ticks == if e.OnTick? then TickAfter(s.ticks, 1) else s.ticks
  {
  }

  lemma {:induction false} RunTicks(s: Sys, es: seq<Event>)
    requires Inv(s)
    ensures Run(s, es).ticks == TickAfter(s.ticks, Ticks(es))
    decreases |es|
  {
    if es != [] {
      StepKeeps(s, es[0]);
      StepTicks(s, es[0]);
      RunTicks(Step(s, es[0]), es[1..]);
      TickAfterNext(s.ticks, Ticks(es[1..]));
    }
  }

  lemma {:induction false} OnlyTicks(n: nat)
    ensures Ticks(Repeat(n, OnTick)) == n
  {
    if n > 0 {
      assert Repeat(n, OnTick)[1..] == Repeat(n - 1, OnTick);
      OnlyTicks(n - 1);
    }
  }

  // ---------------------------------------------------------------- staying blocked

  /** The process in slot `i` sleeps until tick `w`. */
  predicate SleepsUntil(s: Sys, i: nat, pid: u32, w: u32) {
    InState(s.table, i, Blocked) && s.table[i].value.pid == pid && s.table[i].value.wakeTime == w
  }

  /** Nobody kills it or wakes it by hand. */
  predicate Quiet(es: seq<Event>, pid: u32) {
    forall k :: 0 <= k < |es| ==> es[k] != OnKill(pid) && es[k] != OnWake(pid)
  }

  /** The process that calls sleep is blocked until the current tick plus the time asked for. */
  lemma SleepStarts(s: Sys, ms: u32)
    requires Inv(s) && s.table[s.current].value.pid != 0
    ensures SleepsUntil(Sleep(s, ms), s.current, s.table[s.current].value.pid, Add32(s.ticks, ms))
    ensures Sleep(s, ms).ticks == s.ticks && Inv(Sleep(s, ms))
  {
    InvIs(s);
    var p := s.table[s.current].value;
    var p' := p.(wakeTime := Add32(s.ticks, ms), state := Blocked);
    StoppedKeeps(s, p');
    ScheduleAt(s.(table := s.table[s.current := Some(p')]), s.current);
  }

  lemma SleepStep(s: Sys, e: Event, i: nat, pid: u32, w: u32)
    requires Inv(s) && SleepsUntil(s, i, pid, w) && w > 0 && e != OnKill(pid) && e != OnWake(pid)
    requires e.OnTick? ==> TickAfter(s.ticks, 1) < w
    ensures Inv(Step(s, e)) && SleepsUntil(Step(s, e), i, pid, w)
  {
    StepKeeps(s, e);
    StoppedStays(s, e, i);
  }

  /** It stays blocked as long as every tick comes before its time, whatever else happens, messages included. */
  lemma {:induction false} SleepLasts(s: Sys, es: seq<Event>, i: nat, pid: u32, w: u32)
    requires Inv(s) && SleepsUntil(s, i, pid, w) && w > 0 && Quiet(es, pid)
    requires forall j :: 1 <= j <= Ticks(es) ==> TickAfter(s.ticks, j) < w
    ensures SleepsUntil(Run(s, es), i, pid, w)
    decreases |es|
  {
    if es != [] {
      var e := es[0];
      assert e != OnKill(pid) && e != OnWake(pid);
      SleepStep(s, e, i, pid, w);
      StepTicks(s, e);
      forall j | 1 <= j <= Ticks(es[1..]) ensures TickAfter(Step(s, e).ticks, j) < w {
        TickAfterNext(s.ticks, j);
      }
      SleepLasts(Step(s, e), es[1..], i, pid, w);
    }
  }

  // ---------------------------------------------------------------- waking

  predicate Awake(s: Sys, i: nat) {
    InState(s.table, i, Ready) || (InState(s.table, i, Running) && s.current == i)
  }

  /** A tick at or after its time makes it ready, or has it scheduled at once. */
  lemma SleepEnds(s: Sys, i: nat, pid: u32, w: u32)
    requires Inv(s) && SleepsUntil(s, i, pid, w) && 0 < w <= TickAfter(s.ticks, 1)
    ensures Awake(Tick(s), i)
    ensures Tick(s).table[i].value.pid == pid && Tick(s).table[i].value.wakeTime == 0
  {
    InvIs(s);
    StillTick(s, i);
    TickKeeps(s);
    InvIs(Tick(s));
  }

  lemma RunEnds(s: Sys, es: seq<Event>, i: nat, pid: u32, w: u32, n: nat)
    requires Inv(s) && SleepsUntil(Run(s, es), i, pid, w)
    requires n == Ticks(es) + 1 && 0 < w <= TickAfter(s.ticks, n)
    ensures Awake(Run(s, es + [OnTick]), i)
  {
    RunTicks(s, es);
    RunSnoc(s, es, OnTick);
    TickAfterNext(s.ticks, Ticks(es));
    SleepEnds(Run(s, es), i, pid, w);
  }

  // ---------------------------------------------------------------- how long it lasts

  /** The ticks a sleep should last: those asked for, and the next one for a sleep of 0 ms. */
  function Due(ms: u32): nat {
    if ms == 0 then 1 else ms
  }

  /** The sleep's end does not wrap, or all of it lies behind the wrap. A sleep of 0 ms must start neither
      at tick 0, where its end looks like none, nor at the last tick, where its end is already past. */
  predicate EndsInTime(t: u32, ms: u32) {
    if ms == 0 then 0 < t < 0xFFFF_FFFF else t + ms < 0x1_0000_0000 || (t == 0xFFFF_FFFF && ms > 1)
  }

  lemma EarlyTicks(t: u32, ms: u32)
    requires EndsInTime(t, ms)
    ensures 0 < Add32(t, ms) <= TickAfter(t, Due(ms))
    ensures forall j :: 1 <= j < Due(ms) ==> TickAfter(t, j) < Add32(t, ms)
  {
  }

  /** Over every run without a kill or an explicit wake-up, a process that sleeps at tick t for ms is
      blocked as long as fewer ticks have passed, messages or not. */
  lemma SleepExact(s: Sys, ms: u32, es: seq<Event>)
    requires Inv(s) && s.table[s.current].value.pid != 0 && Add32(s.ticks, ms) > 0
    requires Quiet(es, s.table[s.current].value.pid) && (Ticks(es) == 0 || (EndsInTime(s.ticks, ms) && Ticks(es) < Due(ms)))
    ensures SleepsUntil(Run(s, [OnSleep(ms)] + es), s.current, s.table[s.current].value.pid, Add32(s.ticks, ms))
  {
    if EndsInTime(s.ticks, ms) {
      EarlyTicks(s.ticks, ms);
    }
    SleepStarts(s, ms);
    SleepLasts(Sleep(s, ms), es, s.current, s.table[s.current].value.pid, Add32(s.ticks, ms));
    RunCons(s, OnSleep(ms), es);
  }

  /** And the tick that comes then ends the sleep. */
  lemma SleepOver(s: Sys, ms: u32, es: seq<Event>)
    requires Inv(s) && s.table[s.current].value.pid != 0 && EndsInTime(s.ticks, ms)
    requires Quiet(es, s.table[s.current].value.pid) && Ticks(es) == Due(ms) - 1
    ensures Awake(Run(s, [OnSleep(ms)] + es + [OnTick]), s.current)
  {
    EarlyTicks(s.ticks, ms);
    SleepExact(s, ms, es);
    TicksAfterSleep(ms, es);
    RunEnds(s, [OnSleep(ms)] + es, s.current, s.table[s.current].value.pid, Add32(s.ticks, ms), Due(ms));
  }

  // ---------------------------------------------------------------- when it does not

  lemma {:induction false} NoTickEnds(s: Sys, es: seq<Event>, i: nat, pid: u32)
    requires Inv(s) && SleepsUntil(s, i, pid, 0) && Quiet(es, pid)
    requires forall k :: 0 <= k < |es| && es[k].OnSend? ==> es[k].target != pid
    ensures SleepsUntil(Run(s, es), i, pid, 0)
    decreases |es|
  {
    if es != [] {
      StepKeeps(s, es[0]);
      assert es[0] != OnKill(pid) && es[0] != OnWake(pid);
      StoppedStays(s, es[0], i);
      NoTickEnds(Step(s, es[0]), es[1..], i, pid);
    }
  }

  /** A sleep whose end is exactly tick 2^32, or tick 0, gets the wake time 0, and no tick ever ends it. */
  lemma SleepForever(s: Sys, ms: u32, es: seq<Event>)
    requires Inv(s) && s.table[s.current].value.pid != 0 && Add32(s.ticks, ms) == 0
    requires Quiet(es, s.table[s.current].value.pid)
    requires forall k :: 0 <= k < |es| && es[k].OnSend? ==> es[k].target != s.table[s.current].value.pid
    ensures SleepsUntil(Run(s, [OnSleep(ms)] + es), s.current, s.table[s.current].value.pid, 0)
  {
    SleepStarts(s, ms);
    NoTickEnds(Sleep(s, ms), es, s.current, s.table[s.current].value.pid);
    RunCons(s, OnSleep(ms), es);
  }

  /** A message ends it: a process blocked with wake time 0 counts as waiting for one. */
  lemma MessageEndsIt(s: Sys, i: nat, pid: u32, data: seq<byte>)
    requires Inv(s) && SleepsUntil(s, i, pid, 0) && Find(s.table, pid) == i && Send(s, pid, data).1 == 0
    ensures InState(Send(s, pid, data).0.table, i, Ready)
  {
    InvIs(s);
  }

  lemma WrapsEarly(s: Sys, ms: u32)
    requires Inv(s) && s.table[s.current].value.pid != 0 && s.ticks + ms > 0x1_0000_0000 && s.ticks < 0xFFFF_FFFF
    ensures Awake(Run(s, [OnSleep(ms)] + [] + [OnTick]), s.current)
  {
    SleepStarts(s, ms);
    RunCons(s, OnSleep(ms), []);
    TicksAfterSleep(ms, []);
    RunEnds(s, [OnSleep(ms)] + [], s.current, s.table[s.current].value.pid, Add32(s.ticks, ms), 1);
  }

  /** A sleep whose end wraps to a later tick is over at the very next one, unless that one wraps too. */
  lemma SleepWraps(s: Sys, ms: u32)
    requires Inv(s) && s.table[s.current].value.pid != 0 && s.ticks + ms > 0x1_0000_0000
    ensures Awake(Run(s, [OnSleep(ms)] + [] + [OnTick]), s.current) <==> s.ticks < 0xFFFF_FFFF
  {
    if s.ticks < 0xFFFF_FFFF {
      WrapsEarly(s, ms);
    } else {
      assert Ticks([OnTick]) == 1;
      SleepExact(s, ms, [OnTick]);
      assert [OnSleep(ms)] + [] + [OnTick] == [OnSleep(ms)] + [OnTick];
    }
  }

  // ---------------------------------------------------------------- exactly when a sleep lasts as asked

  /** Blocked after the sleep call and `n` ticks with nothing else happening. */
  predicate BlockedAfter(s: Sys, ms: u32, n: nat)
    requires Inv(s)
  {
    InState(Run(s, [OnSleep(ms)] + Repeat(n, OnTick)).table, s.current, Blocked)
  }

  lemma LastsInTime(s: Sys, ms: u32, n: nat)
    requires Inv(s) && s.table[s.current].value.pid != 0 && EndsInTime(s.ticks, ms) && n <= Due(ms)
    ensures BlockedAfter(s, ms, n) <==> n < Due(ms)
  {
    EarlyTicks(s.ticks, ms);
    if n < Due(ms) {
      OnlyTicks(n);
      SleepExact(s, ms, Repeat(n, OnTick));
    } else {
      OnlyTicks(n - 1);
      SleepOver(s, ms, Repeat(n - 1, OnTick));
      assert [OnSleep(ms)] + Repeat(n - 1, OnTick) + [OnTick] == [OnSleep(ms)] + Repeat(n, OnTick);
    }
  }

  /** A sleep of 0 ms at the last tick before the wrap gets that tick as its end: it is blocked until the
      ticks have gone all the way round. */
  lemma ZeroSleepAtLastTick(s: Sys, n: nat)
    requires Inv(s) && s.table[s.current].value.pid != 0 && s.ticks == 0xFFFF_FFFF && n <= 0xFFFF_FFFF
    ensures BlockedAfter(s, 0, n)
  {
    var es := Repeat(n, OnTick);
    OnlyTicks(n);
    SleepStarts(s, 0);
    SleepLasts(Sleep(s, 0), es, s.current, s.table[s.current].value.pid, 0xFFFF_FFFF);
    RunCons(s, OnSleep(0), es);
  }

  /** A sleep of 0 ms at tick 0 is ended by no number of ticks. */
  lemma ZeroSleepAtTickZero(s: Sys, n: nat)
    requires Inv(s) && s.table[s.current].value.pid != 0 && s.ticks == 0
    ensures BlockedAfter(s, 0, n)
  {
    SleepForever(s, 0, Repeat(n, OnTick));
  }

  /** A sleep lasts exactly as long as asked if and only if its end does not wrap, or it starts at the last
      tick before the wrap and lasts more than one; a sleep of 0 ms ends at the next tick if and only if it
      starts neither at tick 0 nor at the last one. */
  lemma SleepLastsIff(s: Sys, ms: u32)
    requires Inv(s) && s.table[s.current].value.pid != 0
    ensures (forall n: nat :: n <= Due(ms) ==> (BlockedAfter(s, ms, n) <==> n < Due(ms))) <==> EndsInTime(s.ticks, ms)
  {
    if EndsInTime(s.ticks, ms) {
      forall n: nat | n <= Due(ms) ensures BlockedAfter(s, ms, n) <==> n < Due(ms) {
        LastsInTime(s, ms, n);
      }
    } else if Add32(s.ticks, ms) == 0 {
      SleepForever(s, ms, Repeat(Due(ms), OnTick));
      assert BlockedAfter(s, ms, Due(ms));
    } else if ms == 0 {
      ZeroSleepAtLastTick(s, 1);
    } else {
      SleepWraps(s, ms);
      assert [OnSleep(ms)] + [] + [OnTick] == [OnSleep(ms)] + Repeat(1, OnTick);
      assert !BlockedAfter(s, ms, 1);
    }
  }
}
