/** Messages between processes: over every run, what a process is given is what was accepted for it,
    in order. */
module Messages {
  import opened Words
  import opened Processes
  import opened ProcessRuns

  function QueueOf(s: Sys, i: nat): Queue
    requires Occupied(s.table, i)
  {
    s.table[i].value.queue
  }

  /** What waits for the process in slot `i`. */
  ghost function Waiting(s: Sys, i: nat): seq<Message>
    requires Inv(s) && Occupied(s.table, i)
  {
    InvIs(s);
    Contents(QueueOf(s, i))
  }

  /** The messages step `e` adds to the queue of slot `i`. */
  function Accepted(s: Sys, e: Event, i: nat): seq<Message>
    requires Inv(s)
  {
    if e.OnSend? && Send(s, e.target, e.data).1 == 0 && Find(s.table, e.target) == i
    then [Message(s.table[s.current].value.pid, e.data)] else []
  }

  /** The messages step `e` takes from the queue of slot `i`. */
  function Taken(s: Sys, e: Event, i: nat): seq<Message>
    requires Inv(s)
  {
    if e.OnReceive? && s.current == i && Receive(s, e.max).1.code >= 0
    then
      var q := QueueOf(s, i);
      [q.messages[q.head]]
    else []
  }

  /** The scheduler moves no message. */
  lemma ScheduleQueue(s: Sys, i: nat)
    requires Almost(s) && Occupied(s.table, i)
    ensures Occupied(Schedule(s).table, i) && QueueOf(Schedule(s), i) == QueueOf(s, i)
  {
  }

  lemma KillQueue(s: Sys, pid: u32, i: nat)
    requires Inv(s) && Occupied(s.table, i) && Occupied(Kill(s, pid).table, i)
    ensures QueueOf(Kill(s, pid), i) == QueueOf(s, i)
  {
  }

  lemma SleepQueue(s: Sys, ms: u32, i: nat)
    requires Inv(s) && Occupied(s.table, i)
    ensures Occupied(Sleep(s, ms).table, i) && QueueOf(Sleep(s, ms), i) == QueueOf(s, i)
  {
  }

  lemma TickQueue(s: Sys, i: nat)
    requires Inv(s) && Occupied(s.table, i)
    ensures Occupied(Tick(s).table, i) && QueueOf(Tick(s), i) == QueueOf(s, i)
  {
  }

  /** Only a send to the process or its own receive moves its messages. */
  lemma OtherQueue(s: Sys, e: Event, i: nat)
    requires Inv(s) && Occupied(s.table, i) && Occupied(Step(s, e).table, i) && !e.OnSend? && !e.OnReceive?
    ensures QueueOf(Step(s, e), i) == QueueOf(s, i)
  {
    match e
    case OnKill(pid) => KillQueue(s, pid, i);
    case OnSleep(ms) => SleepQueue(s, ms, i);
    case OnTick => TickQueue(s, i);
    case OnYield =>
      InvIs(s);
      ScheduleQueue(s, i);
    case OnCreate(outcome) =>
    case OnCreateWithPriority(outcome, priority) =>
    case OnWake(pid) =>
    case OnSetPriority(pid, priority) =>
  }

  lemma SendQueue(s: Sys, target: u32, data: seq<byte>, i: nat)
    requires Inv(s) && Occupied(s.table, i) && Inv(Send(s, target, data).0)
    ensures Occupied(Send(s, target, data).0.table, i)
    ensures Waiting(Send(s, target, data).0, i) == Waiting(s, i) + Accepted(s, OnSend(target, data), i)
  {
    InvIs(s);
    if Send(s, target, data).1 == 0 && Find(s.table, target) == i {
      EnqueueAppends(QueueOf(s, i), Message(s.table[s.current].value.pid, data));
    }
  }

  lemma ReceiveQueue(s: Sys, max: u32, i: nat)
    requires Inv(s) && Occupied(s.table, i) && Inv(Receive(s, max).0)
    ensures Occupied(Receive(s, max).0.table, i)
    ensures Waiting(s, i) == Taken(s, OnReceive(max), i) + Waiting(Receive(s, max).0, i)
  {
    InvIs(s);
    if s.current == i && QueueOf(s, i).count > 0 {
      DequeueTakesFirst(QueueOf(s, i));
    }
  }

  lemma StepMessages(s: Sys, e: Event, i: nat)
    requires Inv(s) && Inv(Step(s, e)) && Occupied(s.table, i) && Occupied(Step(s, e).table, i)
    ensures Waiting(s, i) + Accepted(s, e, i) == Taken(s, e, i) + Waiting(Step(s, e), i)
  {
    match e
    case OnSend(target, data) => SendQueue(s, target, data, i);
    case OnReceive(max) => ReceiveQueue(s, max, i);
    case _ => OtherQueue(s, e, i);
  }

  // ---------------------------------------------------------------- send and receive

  /** A process a message has come to. */
  function Reached(p: Pcb, q: Queue): Pcb {
    p.(queue := q, state := if p.state == Blocked && p.wakeTime == 0 then Ready else p.state)
  }

  /** A message is accepted exactly when its length is 1 to 256, its target exists and fewer than
      eight messages wait there, and otherwise each reason has its code. It then waits behind those; a
      receiver blocked with no wake time is ready; nothing else of the receiver changes and no other slot. */
  ghost predicate Sent(s: Sys, target: u32, data: seq<byte>, s': Sys, code: int)
    requires Inv(s) && Inv(s')
  {
    var i := Find(s.table, target);
    && code == (if !(1 <= |data| <= 256) then -1 else if i == 16 then -2 else if |Waiting(s, i)| == 8 then -3 else 0)
    && (code != 0 ==> s' == s)
    && (code == 0 ==>
          && Occupied(s'.table, i)
          && Waiting(s', i) == Waiting(s, i) + [Message(s.table[s.current].value.pid, data)]
          && OnlySlot(s, i, Reached(s.table[i].value, QueueOf(s', i)), s'))
  }

  lemma SendExact(s: Sys, target: u32, data: seq<byte>)
    requires Inv(s)
    ensures Inv(Send(s, target, data).0) && Sent(s, target, data, Send(s, target, data).0, Send(s, target, data).1)
  {
    InvIs(s);
    SendKeeps(s, target, data);
    if Send(s, target, data).1 == 0 {
      SendQueue(s, target, data, Find(s.table, target));
    }
  }

  /** A receive delivers the oldest message's sender and as many of its bytes as fit, and leaves the
      others waiting and everything else alone. Without room or without a message it changes nothing. */
  ghost predicate Delivered(s: Sys, max: u32, s': Sys, r: Received)
    requires Inv(s) && Inv(s')
  {
    var w := Waiting(s, s.current);
    && s'.current == s.current
    && OnlySlot(s, s.current, s.table[s.current].value.(queue := QueueOf(s', s.current)), s')
    && if max == 0 then r.code == -2 && s' == s
       else if w == [] then r.code == -3 && s' == s
       else r.sender == w[0].sender && r.code == |r.data| == Min(|w[0].data|, max) && r.data == w[0].data[..r.code]
            && Waiting(s', s.current) == w[1..]
  }

  lemma ReceiveDelivers(s: Sys, max: u32)
    requires Inv(s)
    ensures Inv(Receive(s, max).0) && Delivered(s, max, Receive(s, max).0, Receive(s, max).1)
    ensures max > 0 && Waiting(s, s.current) != [] ==> Taken(s, OnReceive(max), s.current) == [Waiting(s, s.current)[0]]
  {
    InvIs(s);
    ReceiveKeeps(s, max);
    ReceiveQueue(s, max, s.current);
    if QueueOf(s, s.current).count > 0 {
      DequeueTakesFirst(QueueOf(s, s.current));
    }
  }

  // ---------------------------------------------------------------- runs

  /** The slot keeps its process throughout. */
  predicate Lives(s: Sys, es: seq<Event>, i: nat)
    requires Inv(s)
    decreases |es|
  {
    if es == [] then Occupied(s.table, i)
    else
      StepKeeps(s, es[0]);
      Occupied(s.table, i) && Lives(Step(s, es[0]), es[1..], i)
  }

  /** All messages accepted for slot `i` over a run, in order. */
  function AllAccepted(s: Sys, es: seq<Event>, i: nat): seq<Message>
    requires Inv(s)
    decreases |es|
  {
    if es == [] then []
    else
      StepKeeps(s, es[0]);
      Accepted(s, es[0], i) + AllAccepted(Step(s, es[0]), es[1..], i)
  }

  /** All messages taken from slot `i` over a run, in order. */
  function AllTaken(s: Sys, es: seq<Event>, i: nat): seq<Message>
    requires Inv(s)
    decreases |es|
  {
    if es == [] then []
    else
      StepKeeps(s, es[0]);
      Taken(s, es[0], i) + AllTaken(Step(s, es[0]), es[1..], i)
  }

  lemma {:induction false} LivesOn(s: Sys, es: seq<Event>, i: nat)
    requires Inv(s) && Lives(s, es, i)
    ensures Occupied(Run(s, es).table, i)
    decreases |es|
  {
    if es != [] {
      StepKeeps(s, es[0]);
      LivesOn(Step(s, es[0]), es[1..], i);
    }
  }

  /** First in, first out, with none lost or invented: over any interleaving of senders and receives,
      what waited and what was accepted is what was taken and what still waits, in the same order. */
  lemma {:induction false} Fifo(s: Sys, es: seq<Event>, i: nat)
    requires Inv(s) && Lives(s, es, i)
    ensures Occupied(Run(s, es).table, i)
    ensures Waiting(s, i) + AllAccepted(s, es, i) == AllTaken(s, es, i) + Waiting(Run(s, es), i)
    decreases |es|
  {
    LivesOn(s, es, i);
    if es != [] {
      StepKeeps(s, es[0]);
      var s1 := Step(s, es[0]);
      StepMessages(s, es[0], i);
      Fifo(s1, es[1..], i);
      FifoStep(Waiting(s, i), Accepted(s, es[0], i), Taken(s, es[0], i), Waiting(s1, i),
               AllAccepted(s1, es[1..], i), AllTaken(s1, es[1..], i), Waiting(Run(s, es), i));
    }
  }

  lemma FifoStep(w0: seq<Message>, a0: seq<Message>, t0: seq<Message>, w1: seq<Message>, a1: seq<Message>, t1: seq<Message>, w2: seq<Message>)
    requires w0 + a0 == t0 + w1 && w1 + a1 == t1 + w2
    ensures w0 + (a0 + a1) == (t0 + t1) + w2
  {
    assert w0 + (a0 + a1) == (w0 + a0) + a1;
    assert (t0 + w1) + a1 == t0 + (w1 + a1);
    assert t0 + (t1 + w2) == (t0 + t1) + w2;
  }
}
