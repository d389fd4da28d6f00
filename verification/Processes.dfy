/** Processes as values: the table, the message rings, and what each call and each timer tick does. */
module Processes {
  import opened Words

  datatype Option<T> = None | Some(value: T)

  datatype State = Ready | Running | Blocked | Terminated

  // ---------------------------------------------------------------- message rings

  datatype Message = Message(sender: u32, data: seq<byte>)

  /** `message_queue_t`: eight places, read at `head` and written at `tail`. */
  datatype Queue = Queue(messages: seq<Message>, head: nat, tail: nat, count: nat)

  const EMPTY: Queue := Queue(Repeat(8, Message(0, [])), 0, 0, 0)

  ghost predicate QueueInv(q: Queue) {
    |q.messages| == 8 && q.head < 8 && q.count <= 8 && q.tail == (q.head + q.count) % 8
  }

  /** The messages waiting, oldest first. */
  function Contents(q: Queue): (r: seq<Message>)
    requires |q.messages| == 8
    ensures |r| == q.count
  {
    seq(q.count, k requires 0 <= k < q.count => q.messages[(q.head + k) % 8])
  }

  function Enqueue(q: Queue, m: Message): Queue
    requires |q.messages| == 8 && q.tail < 8
  {
    Queue(q.messages[q.tail := m], q.head, (q.tail + 1) % 8, q.count + 1)
  }

  function Dequeue(q: Queue): Queue
    requires q.count > 0
  {
    q.(head := (q.head + 1) % 8, count := q.count - 1)
  }

  /** The ring takes a message in at the end of what is waiting. */
  lemma EnqueueAppends(q: Queue, m: Message)
    requires QueueInv(q) && q.count < 8
    ensures QueueInv(Enqueue(q, m)) && Contents(Enqueue(q, m)) == Contents(q) + [m]
  {
    assert Enqueue(q, m).tail == (q.head + (q.count + 1)) % 8;
    forall k | 0 <= k < q.count ensures Contents(Enqueue(q, m))[k] == Contents(q)[k] {
      RingApart(q.head, k, q.count);
    }
  }

  lemma RingApart(head: nat, k: nat, count: nat)
    requires head < 8 && k < count < 8
    ensures (head + k) % 8 != (head + count) % 8
  {
  }

  lemma RingNext(head: nat, k: nat)
    requires head < 8
    ensures ((head + 1) % 8 + k) % 8 == (head + (k + 1)) % 8
  {
  }

  /** And gives out the oldest. */
  lemma DequeueTakesFirst(q: Queue)
    requires QueueInv(q) && q.count > 0
    ensures QueueInv(Dequeue(q)) && Contents(q) == [q.messages[q.head]] + Contents(Dequeue(q))
  {
    RingNext(q.head, q.count - 1);
    forall k | 0 <= k < q.count - 1 ensures Contents(Dequeue(q))[k] == Contents(q)[k + 1] {
      DequeueAt(q, k);
    }
  }

  lemma DequeueAt(q: Queue, k: nat)
    requires QueueInv(q) && k < q.count - 1
    ensures Contents(Dequeue(q))[k] == Contents(q)[k + 1]
  {
    RingNext(q.head, k);
  }

  // ---------------------------------------------------------------- the table

  datatype Pcb = Pcb(pid: u32, state: State, priority: nat, wakeTime: u32, queue: Queue)

  type Table = t: seq<Option<Pcb>> | |t| == 16 witness seq(16, _ => None)

  datatype Sys = Sys(table: Table, current: nat, count: nat, nextPid: u32, ticks: u32)

  predicate Occupied(t: Table, i: nat) {
    i < 16 && t[i].Some?
  }

  predicate InState(t: Table, i: nat, st: State) {
    i < 16 && t[i].Some? && t[i].value.state == st
  }

  function Members(t: seq<Option<Pcb>>): nat {
    if t == [] then 0 else (if t[0].Some? then 1 else 0) + Members(t[1..])
  }

  lemma {:induction false} MembersUpdate(t: seq<Option<Pcb>>, i: nat, x: Option<Pcb>)
    requires i < |t|
    ensures Members(t[i := x]) == Members(t) - (if t[i].Some? then 1 else 0) + (if x.Some? then 1 else 0)
  {
    if i == 0 {
      assert t[i := x][1..] == t[1..];
    } else {
      MembersUpdate(t[1..], i - 1, x);
      assert t[i := x][1..] == t[1..][i - 1 := x];
    }
  }

  /** `process_get`: the first slot that holds the pid, or 16. */
  function Find(t: seq<Option<Pcb>>, pid: u32): (i: nat)
    ensures i <= |t|
    ensures i < |t| ==> t[i].Some? && t[i].value.pid == pid
    ensures forall j :: 0 <= j < i ==> t[j].None? || t[j].value.pid != pid
  {
    if t == [] then 0
    else if t[0].Some? && t[0].value.pid == pid then 0
    else
      var k := Find(t[1..], pid);
      assert forall j :: 0 < j < k + 1 ==> t[j] == t[1..][j - 1];
      k + 1
  }

  /** The first empty slot, or the length of the table. */
  function FreeSlot(t: seq<Option<Pcb>>): (i: nat)
    ensures i <= |t| && (i < |t| ==> t[i].None?)
    ensures forall j :: 0 <= j < i ==> t[j].Some?
  {
    if t == [] || t[0].None? then 0
    else
      var k := FreeSlot(t[1..]);
      assert forall j :: 0 < j < k + 1 ==> t[j] == t[1..][j - 1];
      k + 1
  }

  lemma {:induction false} FullTable(t: seq<Option<Pcb>>)
    ensures Members(t) <= |t|
    ensures FreeSlot(t) == |t| <==> Members(t) == |t|
  {
    if t != [] {
      FullTable(t[1..]);
    }
  }

  // ---------------------------------------------------------------- the scheduler

  /** The best slot among the first `i`, as the scan of `process_schedule` has it: a higher priority
      wins, and an equal one wins if it lies behind the current slot. */
  function Best(t: Table, current: nat, i: nat): (r: Option<nat>)
    requires i <= 16
    ensures r.Some? ==> r.value < i && InState(t, r.value, Ready)
  {
    if i == 0 then None
    else
      var best := Best(t, current, i - 1);
      if !InState(t, i - 1, Ready) then best
      else if best.None? || t[i - 1].value.priority > t[best.value].value.priority then Some(i - 1)
      else if t[i - 1].value.priority == t[best.value].value.priority && i - 1 > current then Some(i - 1)
      else best
  }

  /** A ready process, with none readier below slot `n`. */
  ghost predicate TopBelow(t: Table, n: nat, i: nat)
    requires n <= 16
  {
    i < n && InState(t, i, Ready)
    && forall k :: 0 <= k < n && InState(t, k, Ready) ==> t[k].value.priority <= t[i].value.priority
  }

  /** A ready process of the highest priority there is. */
  ghost predicate Top(t: Table, i: nat) {
    TopBelow(t, 16, i)
  }

  /** What the scan finds: a process of the top priority; the last of them if it lies behind the
      current slot, and the first of them otherwise. */
  ghost predicate Chosen(t: Table, current: nat, n: nat, i: nat)
    requires n <= 16
  {
    && TopBelow(t, n, i)
    && (if exists k: nat :: k > current && TopBelow(t, n, k)
        then forall k: nat :: TopBelow(t, n, k) ==> k <= i
        else forall k: nat :: TopBelow(t, n, k) ==> i <= k)
  }

  lemma {:induction false} BestChosen(t: Table, current: nat, n: nat)
    requires n <= 16
    ensures Best(t, current, n).None? <==> forall k :: 0 <= k < n ==> !InState(t, k, Ready)
    ensures Best(t, current, n).Some? ==> Chosen(t, current, n, Best(t, current, n).value)
  {
    if n > 0 {
      BestChosen(t, current, n - 1);
      BestStep(t, current, n - 1);
    }
  }

  lemma BestStep(t: Table, current: nat, n: nat)
    requires n < 16
    requires Best(t, current, n).None? <==> forall k :: 0 <= k < n ==> !InState(t, k, Ready)
    requires Best(t, current, n).Some? ==> Chosen(t, current, n, Best(t, current, n).value)
    ensures Best(t, current, n + 1).Some? ==> Chosen(t, current, n + 1, Best(t, current, n + 1).value)
  {
    var was, n' := Best(t, current, n), n + 1;
    var now := Best(t, current, n');
    if InState(t, n, Ready) && (was.None? || t[n].value.priority > t[was.value].value.priority) {
      assert TopBelow(t, n', n);
      forall k: nat | TopBelow(t, n', k) ensures k == n {
        assert k < n ==> InState(t, k, Ready);
      }
    } else if InState(t, n, Ready) && t[n].value.priority == t[was.value].value.priority {
      forall k: nat ensures TopBelow(t, n', k) <==> TopBelow(t, n, k) || k == n {
      }
      assert TopBelow(t, n', n) && TopBelow(t, n', was.value);
    } else if was.Some? {
      assert now == was;
      forall k: nat ensures TopBelow(t, n', k) <==> TopBelow(t, n, k) {
      }
      SameTops(t, current, n, n', was.value);
    }
  }

  lemma SameTops(t: Table, current: nat, n: nat, n': nat, i: nat)
    requires n <= 16 && n' <= 16 && Chosen(t, current, n, i)
    requires forall k: nat :: TopBelow(t, n', k) <==> TopBelow(t, n, k)
    ensures Chosen(t, current, n', i)
  {
  }

  // ---------------------------------------------------------------- the calls

  /** How the three allocations of `process_create` come out. */
  datatype Outcome = AllOk | NoPcb | NoStack | NoQueue

  function WithState(t: Table, i: nat, st: State): Table
    requires Occupied(t, i)
  {
    t[i := Some(t[i].value.(state := st))]
  }

  /** The table the scan runs over: a running current process is ready again. */
  function Preempted(s: Sys): Table
    requires Occupied(s.table, s.current)
  {
    if InState(s.table, s.current, Running) then WithState(s.table, s.current, Ready) else s.table
  }

  /** The slot the scheduler gives the processor to; the idle process's when nothing is ready. */
  function Pick(s: Sys): (n: nat)
    requires Occupied(s.table, s.current) && Occupied(s.table, 0)
    ensures Occupied(Preempted(s), n)
  {
    match Best(Preempted(s), s.current, |s.table|)
    case Some(n) => n
    case None => 0
  }

  /** `process_schedule`. */
  function Schedule(s: Sys): Sys
    requires Occupied(s.table, s.current) && Occupied(s.table, 0)
  {
    if s.count == 0 then s
    else s.(table := WithState(Preempted(s), Pick(s), Running), current := Pick(s))
  }

  /** `process_create`. A pid is used up also when only the message queue could not be allocated. */
  function Create(s: Sys, outcome: Outcome): (r: (Sys, u32)) {
    if s.count >= 16 then (s, 0)
    else match outcome
      case NoPcb => (s, 0)
      case NoStack => (s, 0)
      case NoQueue => (s.(nextPid := Add32(s.nextPid, 1)), 0)
      case AllOk =>
        var i := FreeSlot(s.table);
        if i == 16 then (s.(nextPid := Add32(s.nextPid, 1)), 0)
        else (s.(table := s.table[i := Some(Pcb(s.nextPid, Ready, 5, 0, EMPTY))],
                 count := s.count + 1, nextPid := Add32(s.nextPid, 1)), s.nextPid)
  }

  /** `process_set_priority`. */
  function SetPriority(s: Sys, pid: u32, priority: u32): Sys {
    var i := Find(s.table, pid);
    if i == 16 then s
    else s.(table := s.table[i := Some(s.table[i].value.(priority := if priority > 255 then 255 else priority))])
  }

  /** `process_create_with_priority`. */
  function CreateWithPriority(s: Sys, outcome: Outcome, priority: u32): (r: (Sys, u32)) {
    var (s', pid) := Create(s, outcome);
    if pid > 0 then (SetPriority(s', pid, priority), pid) else (s', pid)
  }

  /** `process_kill`. Killing the current process never returns to it: its slot stays behind, terminated. */
  function Kill(s: Sys, pid: u32): Sys
    requires Occupied(s.table, s.current) && Occupied(s.table, 0)
  {
    var i := Find(s.table, pid);
    if pid == 0 || i == 16 then s
    else if i == s.current then Schedule(s.(table := WithState(s.table, i, Terminated)))
    else s.(table := s.table[i := None], count := if s.count > 0 then s.count - 1 else 0)
  }

  /** `process_sleep`. */
  function Sleep(s: Sys, ms: u32): Sys
    requires Occupied(s.table, s.current) && Occupied(s.table, 0)
  {
    var p := s.table[s.current].value;
    if p.pid == 0 then s
    else Schedule(s.(table := s.table[s.current := Some(p.(wakeTime := Add32(s.ticks, ms), state := Blocked))]))
  }

  /** `process_wake`. */
  function Wake(s: Sys, pid: u32): (r: (Sys, int)) {
    var i := Find(s.table, pid);
    if i == 16 then (s, -1)
    else if s.table[i].value.state == Blocked
    then (s.(table := s.table[i := Some(s.table[i].value.(state := Ready, wakeTime := 0))]), 0)
    else (s, -2)
  }

  /** One slot at one tick: a sleeper whose time has come is ready. */
  function Woken(x: Option<Pcb>, ticks: u32): Option<Pcb> {
    if x.Some? && x.value.state == Blocked && x.value.wakeTime > 0 && ticks >= x.value.wakeTime
    then Some(x.value.(state := Ready, wakeTime := 0))
    else x
  }

  /** `process_check_sleeping`. */
  function CheckSleeping(s: Sys): Sys {
    s.(table := seq(16, i requires 0 <= i < 16 => Woken(s.table[i], s.ticks)))
  }

  /** `timer_handler`. */
  function Tick(s: Sys): Sys
    requires Occupied(s.table, s.current) && Occupied(s.table, 0)
  {
    var s' := CheckSleeping(s.(ticks := Add32(s.ticks, 1)));
    if s'.ticks % 10 == 0 then Schedule(s') else s'
  }

  /** `process_send_message`. */
  function Send(s: Sys, target: u32, data: seq<byte>): (r: (Sys, int))
    requires Occupied(s.table, s.current)
  {
    var i := Find(s.table, target);
    if |data| == 0 || |data| > 256 then (s, -1)
    else if i == 16 then (s, -2)
    else
      var p := s.table[i].value;
      if p.queue.count >= 8 || |p.queue.messages| != 8 || p.queue.tail >= 8 then (s, -3)
      else
        var q := Enqueue(p.queue, Message(s.table[s.current].value.pid, data));
        var st := if p.state == Blocked && p.wakeTime == 0 then Ready else p.state;
        (s.(table := s.table[i := Some(p.(queue := q, state := st))]), 0)
  }

  /** `process_receive_message`: the return code, the bytes copied and the sender. */
  datatype Received = Received(code: int, data: seq<byte>, sender: u32)

  function Receive(s: Sys, max: u32): (r: (Sys, Received))
    requires Occupied(s.table, s.current)
  {
    var p := s.table[s.current].value;
    if max == 0 then (s, Received(-2, [], 0))
    else if p.queue.count == 0 || |p.queue.messages| != 8 || p.queue.head >= 8 then (s, Received(-3, [], 0))
    else
      var m := p.queue.messages[p.queue.head];
      var n := Min(|m.data|, max);
      (s.(table := s.table[s.current := Some(p.(queue := Dequeue(p.queue)))]), Received(n, m.data[..n], m.sender))
  }

  // ---------------------------------------------------------------- the invariant

  /** The idle process keeps slot 0 and is ready or running. */
  ghost predicate IdleInv(t: Table) {
    t[0].Some? && t[0].value.pid == 0 && (t[0].value.state == Ready || t[0].value.state == Running)
  }

  ghost predicate CurrentInv(t: Table, current: nat) {
    && Occupied(t, current) && (InState(t, current, Ready) || InState(t, current, Running))
    && (forall i :: 0 <= i < 16 && t[i].Some? && t[i].value.state == Running ==> i == current)
  }

  ghost predicate PcbInv(p: Pcb) {
    p.priority <= 255 && QueueInv(p.queue)
  }

  /** Only the current process runs, idle can always run, and the count is the number of slots taken. */
  ghost predicate Good(s: Sys) {
    && IdleInv(s.table) && CurrentInv(s.table, s.current) && s.count == Members(s.table)
    && (forall i :: 0 <= i < 16 && s.table[i].Some? ==> PcbInv(s.table[i].value))
  }

  /** The same, folded. */
  ghost predicate Inv(s: Sys) {
    && Occupied(s.table, s.current) && Occupied(s.table, 0)
    && (forall k {:trigger Unfold(OfInv, k)} :: Unfold(OfInv, k) ==> Good(s))
  }

  lemma InvIs(s: Sys)
    requires Inv(s)
    ensures Good(s)
  {
    assert Unfold(OfInv, 0);
  }

  /** No two processes have the same pid, and the next one is new. */
  ghost predicate UniquePids(s: Sys) {
    && (forall i :: 0 <= i < 16 && s.table[i].Some? ==> s.table[i].value.pid < s.nextPid)
    && (forall i, j :: 0 <= i < j < 16 && s.table[i].Some? && s.table[j].Some? ==>
          s.table[i].value.pid != s.table[j].value.pid)
  }

  /** After `process_init`: only the idle process. Its wake time and queue are never set. */
  function Start(wakeTime: u32, ticks: u32): Sys {
    Sys(seq(16, i => if i == 0 then Some(Pcb(0, Ready, 0, wakeTime, EMPTY)) else None), 0, 1, 1, ticks)
  }

  /** A slot's process is replaced by another value of the same standing. */
  lemma SlotKeeps(s: Sys, i: nat, p: Pcb)
    requires Inv(s) && Occupied(s.table, i) && PcbInv(p) && p.pid == s.table[i].value.pid
    requires p.state == s.table[i].value.state || (p.state == Ready && s.table[i].value.state != Running)
    ensures Inv(s.(table := s.table[i := Some(p)]))
    ensures UniquePids(s) ==> UniquePids(s.(table := s.table[i := Some(p)]))
  {
    InvIs(s);
    MembersUpdate(s.table, i, Some(p));
  }

  /** When nothing but the current slot changed, to a process that does not run on, the scheduler
      makes the invariant hold again. */
  ghost predicate Almost(s: Sys) {
    && IdleInv(s.table) && Occupied(s.table, s.current) && s.count == Members(s.table)
    && (forall i :: 0 <= i < 16 && s.table[i].Some? && s.table[i].value.state == Running ==> i == s.current)
    && (forall i :: 0 <= i < 16 && s.table[i].Some? ==> PcbInv(s.table[i].value))
  }

  lemma {:induction false} SomeMember(t: seq<Option<Pcb>>, i: nat)
    requires i < |t| && t[i].Some?
    ensures Members(t) > 0
  {
    if i > 0 {
      SomeMember(t[1..], i - 1);
    }
  }

  /** The fallback to idle is never taken: idle itself is always among the ready. */
  lemma NeverStuck(s: Sys)
    requires Almost(s)
    ensures s.count > 0 && InState(Preempted(s), 0, Ready) && Best(Preempted(s), s.current, |s.table|).Some?
    ensures Chosen(Preempted(s), s.current, 16, Pick(s))
  {
    SomeMember(s.table, 0);
    assert InState(Preempted(s), 0, Ready);
    BestChosen(Preempted(s), s.current, |s.table|);
  }

  lemma {:induction false} SameMembers(t: seq<Option<Pcb>>, u: seq<Option<Pcb>>)
    requires |t| == |u| && forall i :: 0 <= i < |t| ==> t[i].Some? == u[i].Some?
    ensures Members(t) == Members(u)
  {
    if t != [] {
      SameMembers(t[1..], u[1..]);
    }
  }

  /** Two tables with the same processes in the same slots, up to their states. */
  ghost predicate Restated(t: Table, u: Table) {
    forall i :: 0 <= i < 16 ==>
      t[i].Some? == u[i].Some? && (t[i].Some? ==> u[i].value == t[i].value.(state := u[i].value.state))
  }

  lemma RestatedKeeps(s: Sys, u: Table, n: nat)
    requires Restated(s.table, u)
    requires forall i :: 0 <= i < 16 && s.table[i].Some? ==> PcbInv(s.table[i].value)
    ensures Members(u) == Members(s.table)
    ensures forall i :: 0 <= i < 16 && u[i].Some? ==> PcbInv(u[i].value)
    ensures UniquePids(s) ==> UniquePids(s.(table := u, current := n))
  {
    SameMembers(s.table, u);
  }

  lemma ScheduleKeeps(s: Sys)
    requires Almost(s)
    ensures Inv(Schedule(s)) && (UniquePids(s) ==> UniquePids(Schedule(s)))
    ensures InState(Schedule(s).table, Schedule(s).current, Running)
  {
    NeverStuck(s);
    ScheduleRestates(s);
    RestatedKeeps(s, Schedule(s).table, Pick(s));
  }

  lemma ScheduleRestates(s: Sys)
    requires Almost(s) && s.count > 0 && InState(Preempted(s), 0, Ready) && InState(Preempted(s), Pick(s), Ready)
    ensures Restated(s.table, Schedule(s).table)
    ensures IdleInv(Schedule(s).table) && CurrentInv(Schedule(s).table, Pick(s))
    ensures InState(Schedule(s).table, Pick(s), Running)
  {
  }

  lemma CheckSleepingKeeps(s: Sys)
    requires Inv(s)
    ensures Inv(CheckSleeping(s)) && (UniquePids(s) ==> UniquePids(CheckSleeping(s)))
  {
    InvIs(s);
    SameMembers(s.table, CheckSleeping(s).table);
  }

  /** A free slot is found whenever the count allows it. */
  lemma CreateKeeps(s: Sys, outcome: Outcome)
    requires Inv(s)
    ensures s.count < 16 ==> FreeSlot(s.table) < 16
    ensures Inv(Create(s, outcome).0)
    ensures UniquePids(s) && s.nextPid < 0xFFFF_FFFF ==> UniquePids(Create(s, outcome).0)
  {
    InvIs(s);
    FullTable(s.table);
    if FreeSlot(s.table) < 16 {
      FillKeeps(s, FreeSlot(s.table), Pcb(s.nextPid, Ready, 5, 0, EMPTY));
    }
  }

  lemma FillKeeps(s: Sys, i: nat, p: Pcb)
    requires Inv(s) && i < 16 && s.table[i].None? && PcbInv(p) && p.state == Ready && p.pid == s.nextPid
    ensures var s' := s.(table := s.table[i := Some(p)], count := s.count + 1, nextPid := Add32(s.nextPid, 1));
            Inv(s') && (UniquePids(s) && s.nextPid < 0xFFFF_FFFF ==> UniquePids(s'))
  {
    InvIs(s);
    MembersUpdate(s.table, i, Some(p));
  }

  lemma RemoveKeeps(s: Sys, i: nat)
    requires Inv(s) && Occupied(s.table, i) && i != s.current && i != 0
    ensures s.count > 0
    ensures var s' := s.(table := s.table[i := None], count := s.count - 1);
            Inv(s') && (UniquePids(s) ==> UniquePids(s'))
  {
    InvIs(s);
    SomeMember(s.table, i);
    MembersUpdate(s.table, i, None);
  }
}
