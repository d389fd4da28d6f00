/** What holds over every run of process calls and timer ticks. */
module ProcessRuns {
  import opened Words
  import opened Processes

  datatype Event =
    | OnCreate(outcome: Outcome)
    | OnCreateWithPriority(outcome: Outcome, priority: u32)
    | OnKill(pid: u32)
    | OnSleep(ms: u32)
    | OnWake(pid: u32)
    | OnTick
    | OnYield
    | OnSetPriority(pid: u32, priority: u32)
    | OnSend(target: u32, data: seq<byte>)
    | OnReceive(max: u32)

  /** The idle process has no message queue. */
  predicate Allowed(s: Sys, e: Event) {
    (e.OnSend? ==> e.target != 0) && (e.OnReceive? ==> s.current != 0)
  }

  function Step(s: Sys, e: Event): Sys
    requires Occupied(s.table, s.current) && Occupied(s.table, 0)
  {
    match e
    case OnCreate(outcome) => Create(s, outcome).0
    case OnCreateWithPriority(outcome, priority) => CreateWithPriority(s, outcome, priority).0
    case OnKill(pid) => Kill(s, pid)
    case OnSleep(ms) => Sleep(s, ms)
    case OnWake(pid) => Wake(s, pid).0
    case OnTick => Tick(s)
    case OnYield => Schedule(s)
    case OnSetPriority(pid, priority) => SetPriority(s, pid, priority)
    case OnSend(target, data) => Send(s, target, data).0
    case OnReceive(max) => Receive(s, max).0
  }

  /** What a call returns: a code and, for a receive, bytes and sender; a tick and the calls that return
      nothing give 0. */
  function Answer(s: Sys, e: Event): Received
    requires Occupied(s.table, s.current) && Occupied(s.table, 0)
  {
    match e
    case OnCreate(outcome) => Received(Create(s, outcome).1, [], 0)
    case OnCreateWithPriority(outcome, priority) => Received(CreateWithPriority(s, outcome, priority).1, [], 0)
    case OnWake(pid) => Received(Wake(s, pid).1, [], 0)
    case OnSetPriority(pid, priority) => Received(if Find(s.table, pid) == 16 then -1 else 0, [], 0)
    case OnSend(target, data) => Received(Send(s, target, data).1, [], 0)
    case OnReceive(max) => Receive(s, max).1
    case _ => Received(0, [], 0)
  }

  // ---------------------------------------------------------------- the invariant, step by step

  /** A pid is handed out by this step. */
  predicate Creates(e: Event) {
    e.OnCreate? || e.OnCreateWithPriority?
  }

  ghost predicate Kept(s: Sys, s': Sys) {
    Inv(s') && (UniquePids(s) ==> UniquePids(s'))
  }

  lemma SetPriorityKeeps(s: Sys, pid: u32, priority: u32)
    requires Inv(s)
    ensures Kept(s, SetPriority(s, pid, priority))
  {
    InvIs(s);
    var i := Find(s.table, pid);
    if i < 16 {
      SlotKeeps(s, i, s.table[i].value.(priority := if priority > 255 then 255 else priority));
    }
  }

  lemma KillKeeps(s: Sys, pid: u32)
    requires Inv(s)
    ensures Kept(s, Kill(s, pid))
  {
    InvIs(s);
    var i := Find(s.table, pid);
    if pid != 0 && i < 16 {
      if i == s.current {
        StoppedKeeps(s, s.table[i].value.(state := Terminated));
      } else {
        RemoveKeeps(s, i);
      }
    }
  }

  /** The current process stops running, whatever for, and the scheduler goes on without it. */
  lemma StoppedKeeps(s: Sys, p: Pcb)
    requires Inv(s) && s.table[s.current].value.pid != 0
    requires PcbInv(p) && p.pid == s.table[s.current].value.pid && (p.state == Blocked || p.state == Terminated)
    ensures var s' := s.(table := s.table[s.current := Some(p)]);
            Almost(s') && Kept(s, Schedule(s')) && Schedule(s').current != s.current
  {
    InvIs(s);
    var s' := s.(table := s.table[s.current := Some(p)]);
    MembersUpdate(s.table, s.current, Some(p));
    NeverStuck(s');
    ScheduleKeeps(s');
  }

  lemma SleepKeeps(s: Sys, ms: u32)
    requires Inv(s)
    ensures Kept(s, Sleep(s, ms))
  {
    InvIs(s);
    var p := s.table[s.current].value;
    if p.pid != 0 {
      StoppedKeeps(s, p.(wakeTime := Add32(s.ticks, ms), state := Blocked));
    }
  }

  lemma WakeKeeps(s: Sys, pid: u32)
    requires Inv(s)
    ensures Kept(s, Wake(s, pid).0)
  {
    InvIs(s);
    var i := Find(s.table, pid);
    if i < 16 && s.table[i].value.state == Blocked {
      SlotKeeps(s, i, s.table[i].value.(state := Ready, wakeTime := 0));
    }
  }

  lemma TickKeeps(s: Sys)
    requires Inv(s)
    ensures Kept(s, Tick(s))
  {
    InvIs(s);
    var s1 := s.(ticks := Add32(s.ticks, 1));
    CheckSleepingKeeps(s1);
    InvIs(CheckSleeping(s1));
    ScheduleKeeps(CheckSleeping(s1));
  }

  lemma SendKeeps(s: Sys, target: u32, data: seq<byte>)
    requires Inv(s)
    ensures Kept(s, Send(s, target, data).0)
  {
    InvIs(s);
    var i := Find(s.table, target);
    if 0 < |data| <= 256 && i < 16 {
      var p := s.table[i].value;
      if p.queue.count < 8 {
        var m := Message(s.table[s.current].value.pid, data);
        EnqueueAppends(p.queue, m);
        SlotKeeps(s, i, p.(queue := Enqueue(p.queue, m), state := if p.state == Blocked && p.wakeTime == 0 then Ready else p.state));
      }
    }
  }

  lemma ReceiveKeeps(s: Sys, max: u32)
    requires Inv(s)
    ensures Kept(s, Receive(s, max).0)
  {
    InvIs(s);
    var p := s.table[s.current].value;
    if max != 0 && p.queue.count > 0 {
      DequeueTakesFirst(p.queue);
      SlotKeeps(s, s.current, p.(queue := Dequeue(p.queue)));
    }
  }

  /** Every step keeps the invariant, and the pids unique until the next pid wraps. */
  lemma StepKeeps(s: Sys, e: Event)
    requires Inv(s)
    ensures Inv(Step(s, e))
    ensures UniquePids(s) && (Creates(e) ==> s.nextPid < 0xFFFF_FFFF) ==> UniquePids(Step(s, e))
  {
    match e
    case OnCreate(outcome) => CreateKeeps(s, outcome);
    case OnCreateWithPriority(outcome, priority) =>
      CreateKeeps(s, outcome);
      SetPriorityKeeps(Create(s, outcome).0, Create(s, outcome).1, priority);
    case OnKill(pid) => KillKeeps(s, pid);
    case OnSleep(ms) => SleepKeeps(s, ms);
    case OnWake(pid) => WakeKeeps(s, pid);
    case OnTick => TickKeeps(s);
    case OnYield =>
      InvIs(s);
      ScheduleKeeps(s);
    case OnSetPriority(pid, priority) => SetPriorityKeeps(s, pid, priority);
    case OnSend(target, data) => SendKeeps(s, target, data);
    case OnReceive(max) => ReceiveKeeps(s, max);
  }

  // ---------------------------------------------------------------- runs

  function Run(s: Sys, es: seq<Event>): (r: Sys)
    requires Inv(s)
    ensures Inv(r)
    decreases |es|
  {
    if es == [] then s
    else
      StepKeeps(s, es[0]);
      Run(Step(s, es[0]), es[1..])
  }

  /** What the calls of a run return, in order. */
  function Answers(s: Sys, es: seq<Event>): (r: seq<Received>)
    requires Inv(s)
    ensures |r| == |es|
    decreases |es|
  {
    if es == [] then []
    else
      StepKeeps(s, es[0]);
      [Answer(s, es[0])] + Answers(Step(s, es[0]), es[1..])
  }

  predicate AllowedRun(s: Sys, es: seq<Event>)
    requires Inv(s)
    decreases |es|
  {
    if es == [] then true
    else
      StepKeeps(s, es[0]);
      Allowed(s, es[0]) && AllowedRun(Step(s, es[0]), es[1..])
  }

  lemma RunCons(s: Sys, e: Event, es: seq<Event>)
    requires Inv(s)
    ensures Inv(Step(s, e)) && Run(s, [e] + es) == Run(Step(s, e), es)
  {
    StepKeeps(s, e);
    assert ([e] + es)[1..] == es;
  }

  lemma {:induction false} RunSnoc(s: Sys, es: seq<Event>, e: Event)
    requires Inv(s)
    ensures Run(s, es + [e]) == Step(Run(s, es), e)
    decreases |es|
  {
    if es == [] {
      StepKeeps(s, e);
      assert ([] + [e])[1..] == [];
    } else {
      StepKeeps(s, es[0]);
      RunSnoc(Step(s, es[0]), es[1..], e);
      assert (es + [e])[1..] == es[1..] + [e] && (es + [e])[0] == es[0];
    }
  }

  function Creations(es: seq<Event>): nat {
    if es == [] then 0 else (if Creates(es[0]) then 1 else 0) + Creations(es[1..])
  }

  lemma NextPid(s: Sys, e: Event)
    requires Inv(s) && (Creates(e) ==> s.nextPid < 0xFFFF_FFFF)
    ensures s.nextPid <= Step(s, e).nextPid <= s.nextPid + if Creates(e) then 1 else 0
  {
  }

  /** Pids stay unique over any run that does not use them all up. */
  lemma {:induction false} RunUnique(s: Sys, es: seq<Event>)
    requires Inv(s) && UniquePids(s) && s.nextPid + Creations(es) <= 0xFFFF_FFFF
    ensures UniquePids(Run(s, es))
    decreases |es|
  {
    if es != [] {
      StepKeeps(s, es[0]);
      NextPid(s, es[0]);
      RunUnique(Step(s, es[0]), es[1..]);
    }
  }

  lemma StartInv(wakeTime: u32, ticks: u32)
    ensures Inv(Start(wakeTime, ticks)) && UniquePids(Start(wakeTime, ticks))
  {
    var t := Start(wakeTime, ticks).table;
    var none: seq<Option<Pcb>> := seq(16, _ => None);
    NoMembers(none);
    MembersUpdate(none, 0, t[0]);
    assert none[0 := t[0]] == t;
  }

  lemma {:induction false} NoMembers(t: seq<Option<Pcb>>)
    requires forall i :: 0 <= i < |t| ==> t[i].None?
    ensures Members(t) == 0
  {
    if t != [] {
      NoMembers(t[1..]);
    }
  }

  // ---------------------------------------------------------------- processes that do not run

  predicate Stopped(t: Table, i: nat) {
    InState(t, i, Blocked) || InState(t, i, Terminated)
  }

  /** The scheduler leaves stopped processes alone. */
  lemma ScheduleAt(s: Sys, i: nat)
    requires Almost(s) && Stopped(s.table, i)
    ensures Schedule(s).table[i] == s.table[i]
  {
  }

  /** Same pid, state and wake time. */
  predicate Still(x: Option<Pcb>, y: Option<Pcb>) {
    x.Some? && y.Some? && y.value == x.value.(priority := y.value.priority, queue := y.value.queue)
  }

  lemma StillKill(s: Sys, pid: u32, i: nat)
    requires Inv(s) && Stopped(s.table, i)
    ensures Kill(s, pid).table[i] == s.table[i] || (Kill(s, pid).table[i].None? && pid == s.table[i].value.pid)
  {
    InvIs(s);
    var k := Find(s.table, pid);
    if pid != 0 && k == s.current {
      StoppedKeeps(s, s.table[k].value.(state := Terminated));
      ScheduleAt(s.(table := WithState(s.table, k, Terminated)), i);
    }
  }

  lemma StillSleep(s: Sys, ms: u32, i: nat)
    requires Inv(s) && Stopped(s.table, i)
    ensures Sleep(s, ms).table[i] == s.table[i]
  {
    InvIs(s);
    var p := s.table[s.current].value;
    if p.pid != 0 {
      var p' := p.(wakeTime := Add32(s.ticks, ms), state := Blocked);
      StoppedKeeps(s, p');
      ScheduleAt(s.(table := s.table[s.current := Some(p')]), i);
    }
  }

  /** At a tick a stopped process changes only if its own time has come, and then it is ready or,
      if the scheduler ran and chose it, running. */
  lemma StillTick(s: Sys, i: nat)
    requires Inv(s) && Stopped(s.table, i)
    ensures var w := Woken(s.table[i], Add32(s.ticks, 1));
            if w == s.table[i] then Tick(s).table[i] == w
            else Tick(s).table[i] == w || Tick(s).table[i] == Some(w.value.(state := Running))
  {
    InvIs(s);
    var s1 := CheckSleeping(s.(ticks := Add32(s.ticks, 1)));
    CheckSleepingKeeps(s.(ticks := Add32(s.ticks, 1)));
    InvIs(s1);
    if Stopped(s1.table, i) {
      ScheduleAt(s1, i);
    } else {
      NeverStuck(s1);
    }
  }

  /** The steps that may bring a stopped process out of its state: its kill, its wake-up, its time
      and, when it has no wake time, a message. */
  predicate Disturbs(s: Sys, e: Event, i: nat)
    requires Stopped(s.table, i)
  {
    var p := s.table[i].value;
    || e == OnKill(p.pid)
    || (e == OnWake(p.pid) && p.state == Blocked)
    || (e.OnSend? && e.target == p.pid && p.state == Blocked && p.wakeTime == 0)
    || (e.OnTick? && Woken(s.table[i], Add32(s.ticks, 1)) != s.table[i])
  }

  lemma StillSend(s: Sys, target: u32, data: seq<byte>, i: nat)
    requires Inv(s) && Stopped(s.table, i)
    requires !Disturbs(s, OnSend(target, data), i)
    ensures Still(s.table[i], Send(s, target, data).0.table[i])
  {
  }

  lemma StillCreate(s: Sys, outcome: Outcome, priority: u32, i: nat)
    requires Inv(s) && Stopped(s.table, i)
    ensures Create(s, outcome).0.table[i] == s.table[i]
    ensures Still(s.table[i], CreateWithPriority(s, outcome, priority).0.table[i])
  {
  }

  /** No other step touches it, but for its priority and its messages. */
  lemma StoppedStays(s: Sys, e: Event, i: nat)
    requires Inv(s) && Stopped(s.table, i) && !Disturbs(s, e, i)
    ensures Still(s.table[i], Step(s, e).table[i])
  {
    InvIs(s);
    match e
    case OnCreate(outcome) => StillCreate(s, outcome, 0, i);
    case OnCreateWithPriority(outcome, priority) => StillCreate(s, outcome, priority, i);
    case OnKill(pid) => StillKill(s, pid, i);
    case OnSleep(ms) => StillSleep(s, ms, i);
    case OnWake(pid) =>
    case OnTick => StillTick(s, i);
    case OnYield => ScheduleAt(s, i);
    case OnSetPriority(pid, priority) =>
    case OnSend(target, data) => StillSend(s, target, data, i);
    case OnReceive(max) =>
  }

  /** A terminated process stays so until its slot is emptied: it is never scheduled, woken or revived. */
  lemma TerminatedStays(s: Sys, e: Event, i: nat)
    requires Inv(s) && InState(s.table, i, Terminated)
    ensures Still(s.table[i], Step(s, e).table[i]) || (Step(s, e).table[i].None? && e == OnKill(s.table[i].value.pid))
  {
    if e.OnKill? {
      StillKill(s, e.pid, i);
    } else {
      StoppedStays(s, e, i);
    }
  }

  // ---------------------------------------------------------------- create and kill

  /** In a table without duplicate pids, the process in slot `i` is found by its pid. */
  lemma FindUnique(s: Sys, i: nat)
    requires UniquePids(s) && Occupied(s.table, i)
    ensures Find(s.table, s.table[i].value.pid) == i
  {
  }

  /** Slot `i` now holds `p`, and nothing else differs. */
  ghost predicate OnlySlot(s: Sys, i: nat, p: Pcb, s': Sys)
    requires i < 16
  {
    && s' == s.(table := s'.table) && s'.table[i] == Some(p)
    && (forall j :: 0 <= j < 16 && j != i ==> s'.table[j] == s.table[j])
  }

  /** What a create returns and leaves. The pid is that of a process in the table; it is 0 exactly when the
      table is full or an allocation failed, and then no slot changes. The next pid moves by one for a
      success and, though nothing is created, when only the message queue could not be allocated. */
  ghost predicate CreateReturns(s: Sys, outcome: Outcome, s': Sys, pid: u32) {
    var full := Members(s.table) == 16;
    && (pid != 0 ==> Find(s'.table, pid) < 16)
    && (s.nextPid > 0 ==> (pid == 0 <==> full || outcome != AllOk))
    && (full || outcome != AllOk ==> pid == 0 && s'.table == s.table && s'.count == s.count)
    && s'.current == s.current && s'.ticks == s.ticks
    && s'.nextPid == if !full && (outcome == NoQueue || outcome == AllOk) then (s.nextPid + 1) % 0x1_0000_0000 else s.nextPid
  }

  /** A new process has joined, in the first empty slot: ready, with no messages and this priority. */
  ghost predicate Joined(s: Sys, priority: nat, s': Sys, pid: u32) {
    && pid == s.nextPid && s'.count == s.count + 1 && Contents(EMPTY) == []
    && exists i :: 0 <= i < 16 && s'.table[i] == Some(Pcb(pid, Ready, priority, 0, EMPTY)) && s.table[i].None?
         && (forall j :: 0 <= j < i ==> s.table[j].Some?) && (forall j :: 0 <= j < 16 && j != i ==> s'.table[j] == s.table[j])
  }

  lemma CreateExact(s: Sys, outcome: Outcome)
    requires Inv(s)
    ensures var (s', pid) := Create(s, outcome);
            CreateReturns(s, outcome, s', pid) && (Members(s.table) < 16 && outcome == AllOk ==> Joined(s, 5, s', pid))
  {
    InvIs(s);
    FullTable(s.table);
    var i := FreeSlot(s.table);
    if i < 16 && outcome == AllOk {
      assert Create(s, outcome).0.table[i] == Some(Pcb(s.nextPid, Ready, 5, 0, EMPTY));
    }
  }

  lemma JoinedAt(s: Sys, priority: nat, s': Sys, pid: u32) returns (i: nat)
    requires UniquePids(s) && Joined(s, priority, s', pid)
    ensures i < 16 && s'.table[i] == Some(Pcb(pid, Ready, priority, 0, EMPTY)) && s.table[i].None? && Find(s'.table, pid) == i
    ensures (forall j :: 0 <= j < i ==> s.table[j].Some?) && (forall j :: 0 <= j < 16 && j != i ==> s'.table[j] == s.table[j])
  {
    i :| 0 <= i < 16 && s'.table[i] == Some(Pcb(pid, Ready, priority, 0, EMPTY)) && s.table[i].None?
         && (forall j :: 0 <= j < i ==> s.table[j].Some?) && (forall j :: 0 <= j < 16 && j != i ==> s'.table[j] == s.table[j]);
  }

  /** With a priority: the same, and a created process has the priority asked for up to 255. */
  lemma CreateWithPriorityExact(s: Sys, outcome: Outcome, priority: u32)
    requires Inv(s)
    ensures var (s', pid) := CreateWithPriority(s, outcome, priority);
            && CreateReturns(s, outcome, s', pid)
            && (UniquePids(s) && Members(s.table) < 16 && outcome == AllOk ==> Joined(s, Min(priority, 255), s', pid))
  {
    CreateExact(s, outcome);
    var (s1, pid) := Create(s, outcome);
    if pid != 0 {
      SetPriorityExact(s1, pid, priority);
      var s' := SetPriority(s1, pid, priority);
      assert Find(s'.table, pid) < 16;
      if UniquePids(s) {
        var i := JoinedAt(s, 5, s1, pid);
        assert s'.table[i] == Some(Pcb(pid, Ready, Min(priority, 255), 0, EMPTY));
      }
    } else if UniquePids(s) {
      InvIs(s);
      assert s.nextPid > 0;
    }
  }

  /** A priority is set, up to 255, and nothing else changes. */
  ghost predicate Prioritised(s: Sys, pid: u32, priority: u32, s': Sys, code: int) {
    var i := Find(s.table, pid);
    if i == 16 then code == -1 && s' == s
    else code == 0 && OnlySlot(s, i, s.table[i].value.(priority := Min(priority, 255)), s')
  }

  lemma SetPriorityExact(s: Sys, pid: u32, priority: u32)
    ensures Prioritised(s, pid, priority, SetPriority(s, pid, priority), if Find(s.table, pid) == 16 then -1 else 0)
  {
  }

  /** A blocked process is ready after its wake-up, with no wake time, and nothing else changes. */
  ghost predicate WokeUp(s: Sys, pid: u32, s': Sys, code: int) {
    var i := Find(s.table, pid);
    if i == 16 then code == -1 && s' == s
    else if s.table[i].value.state != Blocked then code == -2 && s' == s
    else code == 0 && OnlySlot(s, i, s.table[i].value.(state := Ready, wakeTime := 0), s')
  }

  lemma WakeExact(s: Sys, pid: u32)
    ensures WokeUp(s, pid, Wake(s, pid).0, Wake(s, pid).1)
  {
  }

  /** A created process is found under the pid returned: new, ready, with no messages, and with the
      priority asked for up to 255. Every other slot is as it was. */
  lemma CreatedExact(s: Sys, priority: u32)
    requires Inv(s) && UniquePids(s) && s.count < 16 && 0 < s.nextPid < 0xFFFF_FFFF
    ensures var (s', pid) := CreateWithPriority(s, AllOk, priority);
            var i := Find(s'.table, pid);
            && Find(s.table, pid) == 16 && i < 16 && s.table[i].None?
            && s'.table == s.table[i := Some(Pcb(pid, Ready, Min(priority, 255), 0, EMPTY))]
            && s'.count == s.count + 1 && s'.current == s.current
  {
    CreateKeeps(s, AllOk);
    var s1 := Create(s, AllOk).0;
    var i := FreeSlot(s.table);
    FindUnique(s1, i);
    var s2 := CreateWithPriority(s, AllOk, priority).0;
    SetPriorityKeeps(s1, s.nextPid, priority);
    FindUnique(s2, i);
    assert s2.table == s.table[i := s2.table[i]];
  }

  /** Killing another process removes it: its pid is gone and every other slot is as it was. */
  lemma KilledOther(s: Sys, i: nat)
    requires Inv(s) && UniquePids(s) && Occupied(s.table, i) && i != s.current && i != 0
    ensures var s' := Kill(s, s.table[i].value.pid);
            && Find(s'.table, s.table[i].value.pid) == 16
            && s'.table == s.table[i := None] && s'.count == s.count - 1 && s'.current == s.current
  {
    InvIs(s);
    FindUnique(s, i);
    FindUnique(s, 0);
    RemoveKeeps(s, i);
  }

  /** Killing the current process leaves it terminated in its slot, and another one runs. */
  lemma KilledCurrent(s: Sys)
    requires Inv(s) && UniquePids(s) && s.current != 0
    ensures var s' := Kill(s, s.table[s.current].value.pid);
            && InState(s'.table, s.current, Terminated) && s'.count == s.count
            && s'.current != s.current && InState(s'.table, s'.current, Running)
  {
    InvIs(s);
    FindUnique(s, s.current);
    FindUnique(s, 0);
    var p := s.table[s.current].value.(state := Terminated);
    StoppedKeeps(s, p);
    var s1 := s.(table := WithState(s.table, s.current, Terminated));
    ScheduleAt(s1, s.current);
    ScheduleKeeps(s1);
  }

  /** The three cases of a kill, without naming slots. */
  lemma KilledExact(s: Sys, pid: u32)
    requires Inv(s)
    ensures var s', i := Kill(s, pid), Find(s.table, pid);
            && (pid == 0 || i == 16 ==> s' == s)
            && (UniquePids(s) && pid != 0 && i < 16 && i != s.current ==> Find(s'.table, pid) == 16)
            && (pid != 0 && i < 16 && i != s.current ==> s' == s.(table := s.table[i := None], count := s'.count) && s'.count == s.count - 1)
            && (UniquePids(s) && pid != 0 && i == s.current ==>
                  InState(s'.table, i, Terminated) && s'.count == s.count && s'.current != i && InState(s'.table, s'.current, Running))
  {
    InvIs(s);
    var i := Find(s.table, pid);
    if pid != 0 && i < 16 && i != s.current {
      RemoveKeeps(s, i);
    }
    if UniquePids(s) && pid != 0 && i < 16 {
      if i != s.current {
        KilledOther(s, i);
      } else {
        KilledCurrent(s);
      }
    }
  }
}
