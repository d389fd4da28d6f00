/** Process management with its tables changed in place: each call does to the state what the
    functions of the model say. */
module ProcessManager {
  import opened Words
  import opened Processes
  import opened ProcessRuns
  import opened Scheduling
  import opened Messages

  /** After `k` events of a run the state is `s` and the returns were `rs`. Folded. */
  ghost predicate Passed(start: Sys, es: seq<Event>, k: nat, s: Sys, rs: seq<Received>) {
    forall u {:trigger Unfold(OfRunState, u)} :: Unfold(OfRunState, u) ==>
      && k <= |es| && Inv(start) && Inv(s) && AllowedRun(s, es[k..])
      && Run(s, es[k..]) == Run(start, es) && rs + Answers(s, es[k..]) == Answers(start, es)
  }

  lemma PassedStart(start: Sys, es: seq<Event>)
    requires Inv(start) && AllowedRun(start, es)
    ensures Passed(start, es, 0, start, [])
  {
    assert es[0..] == es;
  }

  lemma PassedNext(start: Sys, es: seq<Event>, k: nat, s: Sys, rs: seq<Received>)
    requires Inv(s) && Passed(start, es, k, s, rs) && k < |es|
    ensures Allowed(s, es[k]) && Passed(start, es, k + 1, Step(s, es[k]), rs + [Answer(s, es[k])])
  {
    assert Unfold(OfRunState, 0);
    assert es[k..][1..] == es[k + 1..];
    StepKeeps(s, es[k]);
  }

  lemma PassedEnd(start: Sys, es: seq<Event>, s: Sys, rs: seq<Received>)
    requires Inv(start) && Passed(start, es, |es|, s, rs)
    ensures s == Run(start, es) && rs == Answers(start, es)
  {
    assert Unfold(OfRunState, 0);
    assert es[|es|..] == [];
  }

  /** What one event may do to the state and return, said without the functions that do it. */
  ghost predicate Next(s: Sys, e: Event, s': Sys, r: Received)
    requires Inv(s) && Inv(s')
  {
    match e
    case OnCreate(outcome) =>
      && 0 <= r.code < 0x1_0000_0000 && CreateReturns(s, outcome, s', r.code)
      && (Members(s.table) < 16 && outcome == AllOk ==> Joined(s, 5, s', r.code))
    case OnCreateWithPriority(outcome, priority) =>
      && 0 <= r.code < 0x1_0000_0000 && CreateReturns(s, outcome, s', r.code)
      && (UniquePids(s) && Members(s.table) < 16 && outcome == AllOk ==> Joined(s, Min(priority, 255), s', r.code))
    case OnKill(pid) => Killed(s, pid, s')
    case OnSleep(ms) => Slept(s, ms, s')
    case OnWake(pid) => WokeUp(s, pid, s', r.code)
    case OnTick => Ticked(s, s')
    case OnYield => HandsOver(s.table, s.current, s') && s' == s.(table := s'.table, current := s'.current)
    case OnSetPriority(pid, priority) => Prioritised(s, pid, priority, s', r.code)
    case OnSend(target, data) => Sent(s, target, data, s', r.code)
    case OnReceive(max) => Delivered(s, max, s', r)
  }

  lemma StepNext(s: Sys, e: Event)
    requires Inv(s)
    ensures Inv(Step(s, e)) && Next(s, e, Step(s, e), Answer(s, e))
  {
    StepKeeps(s, e);
    match e
    case OnCreate(outcome) => CreateExact(s, outcome);
    case OnCreateWithPriority(outcome, priority) => CreateWithPriorityExact(s, outcome, priority);
    case OnKill(pid) => KillExact(s, pid);
    case OnSleep(ms) => SleepPicks(s, ms);
    case OnWake(pid) => WakeExact(s, pid);
    case OnTick => TickExact(s);
    case OnYield =>
      InvIs(s);
      ScheduleExact(s);
    case OnSetPriority(pid, priority) => SetPriorityExact(s, pid, priority);
    case OnSend(target, data) => SendExact(s, target, data);
    case OnReceive(max) => ReceiveDelivers(s, max);
  }

  /** The events `es` lead from `s` to `s'` with the returns `rs`, each step as `Next` says. */
  ghost predicate Leads(s: Sys, es: seq<Event>, s': Sys, rs: seq<Received>)
    requires Inv(s)
    decreases |es|
  {
    && |rs| == |es|
    && if es == [] then s' == s
       else exists mid: Sys :: Inv(mid) && Next(s, es[0], mid, rs[0]) && Leads(mid, es[1..], s', rs[1..])
  }

  lemma {:induction false} RunLeads(s: Sys, es: seq<Event>)
    requires Inv(s)
    ensures Leads(s, es, Run(s, es), Answers(s, es))
    decreases |es|
  {
    if es != [] {
      StepNext(s, es[0]);
      RunLeads(Step(s, es[0]), es[1..]);
      assert Answers(s, es)[1..] == Answers(Step(s, es[0]), es[1..]);
    }
  }

  class Manager {
    var table: Table
    /** The slot of the current process. */
    var current: nat
    var count: nat
    var nextPid: u32
    var ticks: u32

    ghost function View(): Sys
      reads this
    {
      Sys(table, current, count, nextPid, ticks)
    }

    /** `process_init`. */
    constructor (wakeTime: u32, now: u32)
      ensures View() == Start(wakeTime, now) && Inv(View()) && UniquePids(View())
      ensures table[0] == Some(Pcb(0, Ready, 0, wakeTime, EMPTY)) && forall i :: 1 <= i < 16 ==> table[i] == None
      ensures current == 0 && count == 1 && nextPid == 1 && ticks == now && Contents(EMPTY) == []
    {
      table := seq(16, i => if i == 0 then Some(Pcb(0, Ready, 0, wakeTime, EMPTY)) else None);
      current := 0;
      count := 1;
      nextPid := 1;
      ticks := now;
      new;
      assert table == Start(wakeTime, now).table;
      StartInv(wakeTime, now);
    }

    /** `process_get`: the first slot that holds the pid, or 16. */
    method Get(pid: u32) returns (i: nat)
      ensures i == Find(table, pid)
    {
      i := 0;
      while i < 16
        invariant i <= 16 && forall j :: 0 <= j < i ==> table[j].None? || table[j].value.pid != pid
      {
        if table[i].Some? && table[i].value.pid == pid {
          return;
        }
        i := i + 1;
      }
    }

    /** The scan of `process_schedule`. */
    method Scan() returns (next: Option<nat>)
      requires current < 16
      ensures next == Best(table, current, |table|)
    {
      next := None;
      var highest := 0;
      var i := 0;
      while i < 16
        invariant i <= 16 && next == Best(table, current, i)
        invariant next.Some? ==> highest == table[next.value].value.priority
      {
        if table[i].Some? && table[i].value.state == Ready {
          if next.None? || table[i].value.priority > highest {
            next, highest := Some(i), table[i].value.priority;
          } else if table[i].value.priority == highest {
            var j := 0;
            while j < 16
              invariant j <= current
              invariant next == Best(table, current, i)
            {
              if j == current {
                if i > j && table[i].value.priority == highest {
                  next := Some(i);
                }
                break;
              }
              j := j + 1;
            }
          }
        }
        i := i + 1;
      }
    }

    /** `process_schedule`. */
    method Reschedule()
      requires Almost(View())
      modifies this
      ensures View() == Schedule(old(View())) && Inv(View())
      ensures HandsOver(old(table), old(current), View()) && View() == old(View()).(table := table, current := current)
    {
      ScheduleExact(View());
      NeverStuck(View());
      ScheduleKeeps(View());
      if count == 0 {
        return;
      }
      if table[current].value.state == Running {
        table := WithState(table, current, Ready);
      }
      var next := Scan();
      var slot := if next.Some? then next.value else 0;
      if slot != current {
        current := slot;
        table := WithState(table, current, Running);
      } else {
        table := WithState(table, current, Running);
      }
    }

    /** `process_create`. */
    method CreateProcess(outcome: Outcome) returns (pid: u32)
      requires Inv(View())
      modifies this
      ensures (View(), pid) == Create(old(View()), outcome) && Inv(View())
      ensures CreateReturns(old(View()), outcome, View(), pid)
      ensures Members(old(table)) < 16 && outcome == AllOk ==> Joined(old(View()), 5, View(), pid)
    {
      CreateKeeps(View(), outcome);
      CreateExact(View(), outcome);
      pid := 0;
      if count >= 16 {
        return;
      }
      if outcome == NoPcb || outcome == NoStack {
        return;
      }
      var p := Pcb(nextPid, Ready, 5, 0, EMPTY);
      nextPid := Add32(nextPid, 1);
      if outcome == NoQueue {
        return;
      }
      var i := 0;
      while i < 16
        invariant i <= 16 && forall j :: 0 <= j < i ==> table[j].Some?
        invariant table == old(table) && current == old(current) && count == old(count) && ticks == old(ticks) && pid == 0
        invariant nextPid == Add32(old(nextPid), 1)
      {
        if table[i].None? {
          table := table[i := Some(p)];
          count := count + 1;
          return p.pid;
        }
        i := i + 1;
      }
      assert false;
    }

    /** `process_set_priority`. */
    method SetProcessPriority(pid: u32, priority: u32) returns (code: int)
      requires Inv(View())
      modifies this
      ensures View() == SetPriority(old(View()), pid, priority) && Inv(View())
      ensures Prioritised(old(View()), pid, priority, View(), code)
    {
      SetPriorityExact(View(), pid, priority);
      SetPriorityKeeps(View(), pid, priority);
      var i := Get(pid);
      if i == 16 {
        return -1;
      }
      table := table[i := Some(table[i].value.(priority := if priority > 255 then 255 else priority))];
      return 0;
    }

    /** `process_create_with_priority`. */
    method CreateProcessWithPriority(outcome: Outcome, priority: u32) returns (pid: u32)
      requires Inv(View())
      modifies this
      ensures (View(), pid) == CreateWithPriority(old(View()), outcome, priority) && Inv(View())
      ensures CreateReturns(old(View()), outcome, View(), pid)
      ensures old(UniquePids(View())) && Members(old(table)) < 16 && outcome == AllOk ==>
                Joined(old(View()), Min(priority, 255), View(), pid)
    {
      CreateWithPriorityExact(View(), outcome, priority);
      pid := CreateProcess(outcome);
      if pid > 0 {
        var _ := SetProcessPriority(pid, priority);
      }
    }

    /** `process_kill`. */
    method KillProcess(pid: u32)
      requires Inv(View())
      modifies this
      ensures View() == Kill(old(View()), pid) && Inv(View())
      ensures Killed(old(View()), pid, View())
    {
      KillKeeps(View(), pid);
      KillExact(View(), pid);
      InvIs(View());
      if pid == 0 {
        return;
      }
      var i := Get(pid);
      if i == 16 {
        return;
      }
      if i == current {
        StoppedKeeps(View(), table[i].value.(state := Terminated));
        table := WithState(table, i, Terminated);
        Reschedule();
        return;
      }
      RemoveKeeps(View(), i);
      table := table[i := None];
      count := count - 1;
    }

    /** `process_sleep`, called by the current process. */
    method SleepCurrent(ms: u32)
      requires Inv(View())
      modifies this
      ensures View() == Sleep(old(View()), ms) && Inv(View())
      ensures Slept(old(View()), ms, View())
    {
      SleepPicks(View(), ms);
      SleepKeeps(View(), ms);
      InvIs(View());
      var p := table[current].value;
      if p.pid == 0 {
        return;
      }
      StoppedKeeps(View(), p.(wakeTime := Add32(ticks, ms), state := Blocked));
      table := table[current := Some(p.(wakeTime := Add32(ticks, ms), state := Blocked))];
      Reschedule();
    }

    /** `process_wake`. */
    method WakeProcess(pid: u32) returns (code: int)
      requires Inv(View())
      modifies this
      ensures (View(), code) == Wake(old(View()), pid) && Inv(View())
      ensures WokeUp(old(View()), pid, View(), code)
    {
      WakeExact(View(), pid);
      WakeKeeps(View(), pid);
      var i := Get(pid);
      if i == 16 {
        return -1;
      }
      if table[i].value.state == Blocked {
        table := table[i := Some(table[i].value.(state := Ready, wakeTime := 0))];
        return 0;
      }
      return -2;
    }

    /** `process_check_sleeping`. */
    method WakeSleepers()
      modifies this`table
      ensures View() == CheckSleeping(old(View())) && DueWoken(old(table), ticks, table)
    {
      var i := 0;
      while i < 16
        invariant i <= 16
        invariant forall j :: 0 <= j < i ==> table[j] == Woken(old(table)[j], ticks)
        invariant forall j :: i <= j < 16 ==> table[j] == old(table)[j]
      {
        if table[i].Some? && table[i].value.state == Blocked && table[i].value.wakeTime > 0 {
          if ticks >= table[i].value.wakeTime {
            table := table[i := Some(table[i].value.(state := Ready, wakeTime := 0))];
          }
        }
        i := i + 1;
      }
      assert table == CheckSleeping(old(View())).table;
    }

    /** `timer_handler`. */
    method TimerTick()
      requires Inv(View())
      modifies this
      ensures View() == Tick(old(View())) && Inv(View()) && Ticked(old(View()), View())
    {
      TickExact(View());
      InvIs(View());
      TickKeeps(View());
      CheckSleepingKeeps(View().(ticks := Add32(ticks, 1)));
      ticks := Add32(ticks, 1);
      WakeSleepers();
      InvIs(View());
      if ticks % 10 == 0 {
        Reschedule();
      }
    }

    /** `process_send_message`. The idle process has no queue to send to. */
    method SendMessage(target: u32, data: seq<byte>) returns (code: int)
      requires Inv(View()) && target != 0
      modifies this
      ensures (View(), code) == Send(old(View()), target, data) && Inv(View())
      ensures Sent(old(View()), target, data, View(), code)
    {
      SendExact(View(), target, data);
      SendKeeps(View(), target, data);
      InvIs(View());
      if |data| == 0 || |data| > 256 {
        return -1;
      }
      var i := Get(target);
      if i == 16 {
        return -2;
      }
      var p := table[i].value;
      if p.queue.count >= 8 {
        return -3;
      }
      p := p.(queue := Enqueue(p.queue, Message(table[current].value.pid, data)));
      if p.state == Blocked && p.wakeTime == 0 {
        p := p.(state := Ready);
      }
      table := table[i := Some(p)];
      return 0;
    }

    /** `process_receive_message`, called by the current process; the idle process has no queue. */
    method ReceiveMessage(max: u32) returns (r: Received)
      requires Inv(View()) && current != 0
      modifies this
      ensures (View(), r) == Receive(old(View()), max) && Inv(View())
      ensures Delivered(old(View()), max, View(), r)
    {
      ReceiveDelivers(View(), max);
      ReceiveKeeps(View(), max);
      InvIs(View());
      if max == 0 {
        return Received(-2, [], 0);
      }
      var p := table[current].value;
      if p.queue.count == 0 {
        return Received(-3, [], 0);
      }
      var m := p.queue.messages[p.queue.head];
      var n := Min(|m.data|, max);
      table := table[current := Some(p.(queue := Dequeue(p.queue)))];
      return Received(n, m.data[..n], m.sender);
    }

    /** Any run of calls and ticks: the returns along the way and the state at the end are the model's, and
        each step is one that `Next` allows. */
    method RunEvents(es: seq<Event>) returns (rs: seq<Received>)
      requires Inv(View()) && AllowedRun(View(), es)
      modifies this
      ensures View() == Run(old(View()), es) && Inv(View())
      ensures rs == Answers(old(View()), es) && Leads(old(View()), es, View(), rs)
    {
      RunLeads(View(), es);
      rs := [];
      PassedStart(View(), es);
      var k := 0;
      while k < |es|
        invariant k <= |es| && Inv(View()) && Passed(old(View()), es, k, View(), rs)
      {
        PassedNext(old(View()), es, k, View(), rs);
        var r := Handle(es[k]);
        rs := rs + [r];
        k := k + 1;
      }
      PassedEnd(old(View()), es, View(), rs);
    }

    method Handle(e: Event) returns (r: Received)
      requires Inv(View()) && Allowed(View(), e)
      modifies this
      ensures View() == Step(old(View()), e) && Inv(View())
      ensures r == Answer(old(View()), e)
    {
      var code := 0;
      match e {
        case OnCreate(outcome) => code := CreateProcess(outcome);
        case OnCreateWithPriority(outcome, priority) => code := CreateProcessWithPriority(outcome, priority);
        case OnKill(pid) => KillProcess(pid);
        case OnSleep(ms) => SleepCurrent(ms);
        case OnWake(pid) => code := WakeProcess(pid);
        case OnTick => TimerTick();
        case OnYield =>
          InvIs(View());
          Reschedule();
        case OnSetPriority(pid, priority) => code := SetProcessPriority(pid, priority);
        case OnSend(target, data) => code := SendMessage(target, data);
        case OnReceive(max) =>
          r := ReceiveMessage(max);
          return;
      }
      return Received(code, [], 0);
    }
  }
}
